# Sieve of Eratosthenes — a verified model of the sieve engine of `eratos3.c`

`eratos3.c` finds all primes up to a bound `limit` with the Sieve of
Eratosthenes. It keeps one table of `limit + 1` flags, one per integer
`0..limit`. The program uses the table in three steps:

1. `initialize_sieve` sets every flag to `IS_PRIME` and then clears 0 and 1.
2. `sieve_of_eratosthenes` thins the table in place. For each `i` with
   `i*i <= limit` whose flag is still set, it clears `i*i, i*i+i, …`.
3. One of two emitters scans the table from 2 upwards:
   - `print_primes` writes each set index followed by a space, then a newline.
   - `write_sieve_to_csv` writes the set indices joined by commas, then a newline.
     A `first` flag keeps a comma from being written before the first number.

The model keeps this form:

- `sieve.dfy`, module `Eratosthenes`: class `Sieve` owns the table as an
  `array<bool>`. Its named constructor `Initialize` fills the table with a
  loop. `Eliminate` runs the outer loop. `ClearMultiples` is the inner loop.
  Both change the array in place. `TextListing` and `CsvListing` are the two
  emitters. Each builds the string the C code would write, in one scan.
  `Run` is the dispatch in `main`: initialise, sieve, then one emitter.
  Ghost functions `CrossOff` and `SieveRound` describe one pass of each loop
  over the table as a value. The lemmas beside them carry the outer loop's
  invariant from one `i` to the next.
- `primes.dfy`, module `Primes`: the reference definitions. `IsPrime` is
  primality by trial division. `PrimesBelow` is the ascending list of primes.
  The module also holds the divisor facts that the elimination proof uses.
- `listing.dfy`, module `Listing`: the two output formats as functions of the
  listed numbers. It also has readers (`ReadText`, `ReadCsv`, `Split`,
  `ParseAll`) that take the outputs apart again, so round trips can be stated.
- `decimal.dfy`, module `Decimal`: `%u` rendering (`NatToString`) and its
  reader (`ParseNat`).

Main results:

- `Eliminate` ensures that, afterwards, `flags[k] == IsPrime(k)` for every
  `k` in `0..limit`.
- `Run` ensures that the run writes exactly `TextLine(PrimesBelow(limit + 1))`
  or `CsvLine(PrimesBelow(limit + 1))`.
- `PrimesBelowSpec` ensures that this list holds exactly the primes up to
  `limit`, in strictly ascending order.

Choices about the edges of the engine:

- If `write_sieve_to_csv` cannot open its file, it writes a message to
  stderr and returns (eratos3.c:269-272). It returns no error value, and
  `main` still prints "Sieve written" and returns `EXIT_SUCCESS`
  (eratos3.c:117, 130). The model returns `OpenFailed` (nothing written) and
  gives `Run` no failure status.
- `main` rejects a bound below 2 (eratos3.c:71-75, 176-180), and
  `initialize_sieve` writes `sieve[1]`, so `Initialize` and `Run` require
  `2 <= limit`. No other `requires` goes beyond what the callers guarantee.

## Model

| member | source | states |
|---|---|---|
| `Eratosthenes.Sieve.Initialize` | eratos3.c:227-238 | The table has exactly `limit + 1` entries. Entries 0 and 1 are cleared. Every entry in `[2, limit]` is set, so no prime is cleared. |
| `Eratosthenes.Sieve.ClearMultiples` | eratos3.c:244-246 | The inner loop for `i` clears exactly the indices `k` with `i*i <= k <= limit` and `k % i == 0`. Every other entry keeps its old value (`flags[..] == CrossOff(old(flags[..]), i)`). |
| `Eratosthenes.Sieve.Eliminate` | eratos3.c:241-249 | Precondition: entries 0 and 1 are cleared and every prime is set. Afterwards, `flags[k]` holds exactly when `k` is prime, for every `k` in `0..limit`. A cleared entry is never set again. On a table that is already sieved, nothing changes (idempotence). |
| `Eratosthenes.RoundKeepsPrimes` | eratos3.c:243-247 | One round of the outer loop never clears a prime and never sets a cleared entry. |
| `Eratosthenes.RoundClearsDivisors` | eratos3.c:242-248 | The outer-loop invariant advances by one. Before the round for `i`, every entry with a proper divisor below `i` is cleared. After it, every entry with a proper divisor below `i + 1` is cleared. This holds both when `i` is still set (its multiples from `i*i` are crossed off) and when it is not (then `i` is composite, and its multiples are already cleared). |
| `Eratosthenes.SievedWhenSquareExceeds` | eratos3.c:242 | Stopping the outer loop at the first `i` with `i*i > limit` is enough. Once every entry with a divisor below `i` is cleared, with 0 and 1 cleared and every prime set, the set entries are exactly the primes. |
| `Eratosthenes.Sieve.TextListing` | eratos3.c:253-260 | The output is the set indices in `[2, limit]` in ascending order, each in decimal followed by one space, then one newline (`TextLine(Flagged(...))`). |
| `Eratosthenes.Sieve.CsvListing` | eratos3.c:267-285 | If the file cannot be opened, nothing is written. Otherwise the output is the same ascending indices, joined by commas with none leading or trailing, then one newline. The `first` flag is true exactly while no index has been written. |
| `Eratosthenes.Run` | eratos3.c:110-122 | One run with `limit >= 2` produces the terminal listing of exactly the primes up to `limit`, or the CSV line of them, or `OpenFailed` when the file cannot be opened. |
| `Eratosthenes.SmallestBoundListings` | eratos3.c:253-283 | For `limit = 2`, the terminal output is `"2 \n"` and the CSV output is `"2\n"`. |
| `Eratosthenes.SquareNeverListed` | eratos3.c:242-245 | A fact about the reference list `PrimesBelow`: no perfect square `p*p` (with `p >= 2`) is in it, whatever the bound. It does not mention the table; the table's side is `SquareCleared`. |
| `Eratosthenes.SquareCleared` | eratos3.c:241-249 | For the bound `p*p` itself (`p >= 2`), after `initialize_sieve` and `sieve_of_eratosthenes` the entry `p*p` is cleared. This is the boundary case of the guard `i <= sqrt(limit)`: the round `i = p`, where `i*i == limit`, must still run, and the guard `i * i <= limit` in `Eliminate` together with its `ensures Sieved()` is what makes the entry cleared. |
| `Primes.TwoIsListed` | eratos3.c:71-75 | For every accepted bound (`limit >= 2`), 2 is among the primes up to `limit`, so every finished table lists at least one number. |
| `Eratosthenes.FinishedListingsRespaced` | eratos3.c:253-283 | For every accepted bound, the terminal output of a finished table is its CSV body with each comma turned into a space, then `" \n"`. |
| `Decimal.NatToString` | eratos3.c:256 | `%u` writes a non-empty string of decimal digits with no leading zero. It starts with `'0'` only for 0 and is one character long only below 10. |
| `Decimal.ParseNatToString` | eratos3.c:279 | Reading a rendered number gives the number back. |
| `Decimal.NatToStringParse` | eratos3.c:256 | Every canonical digit string is the rendering of the number it denotes, so rendering is onto canonical strings. |
| `Listing.FlaggedSpec` | eratos3.c:254-258 | One ascending scan lists exactly the set indices in `[2, n)`, each once, in strictly increasing order. |
| `Listing.FlaggedOfSievedTable` | eratos3.c:254-258 | On a table whose flags are exactly primality, the scan lists exactly `PrimesBelow(n)`. |
| `Primes.PrimesBelowSpec` | eratos3.c:2-3 | `PrimesBelow(n)` contains a number exactly when that number is a prime below `n`, and the list is strictly increasing. |
| `Listing.TextBodyAppend` | eratos3.c:255-256 | Writing one more number adds its decimal form and one space to the terminal listing. |
| `Listing.JoinRenderAppend` | eratos3.c:276-280 | Writing one more number adds its decimal form to the CSV body, with a comma before it unless it is the first. |
| `Listing.TextScanStep` | eratos3.c:254-258 | One step of the terminal scan at index `i`. It writes `i` and a space exactly when `i`'s flag is set, which keeps the output equal to the listing of the indices scanned so far. |
| `Listing.CsvScanStep` | eratos3.c:274-282 | One step of the CSV scan at index `i`. When `i`'s flag is set, it writes a comma unless nothing has been written yet, then `i`. This keeps the output equal to the comma-joined listing so far. `first` stays true exactly while no scanned index has been set. |
| `Listing.TextRoundTrip` | eratos3.c:253-260 | Splitting the terminal output on spaces gives back the listed numbers, in order. |
| `Listing.CsvRoundTrip` | eratos3.c:273-283 | Splitting the CSV line body on commas gives back the listed numbers, in order (also when the list is empty). |
| `Listing.SplitJoin` | eratos3.c:276-279 | Splitting a comma-joined line of at least one item on commas gives back its items, provided no item contains a comma. (Joining no items gives `""`, which splits to `[""]`.) |
| `Listing.EmittersAgree` | eratos3.c:254-281 | The terminal output and the CSV output of the same numbers read back as the same numbers in the same order. |
| `Listing.TextIsCsvRespaced` | eratos3.c:256-283 | The two outputs differ only in separator and terminator. For a non-empty list, the terminal output is the CSV body with each comma turned into a space, then `" \n"`. |
| `Primes.CompositeHasSmallDivisor` | eratos3.c:242 | A composite `k` below `i*i` has a proper divisor below `i`. This is why the outer loop may stop once `i*i > limit`. |
| `Primes.CofactorBelow` | eratos3.c:244 | A multiple `k` of `i` with `i < k < i*i` has a proper divisor below `i`. This is why the inner loop may start at `i*i`. |
| `Primes.DivisorOfNonPrime` | eratos3.c:243 | Every multiple of a composite `i` has a proper divisor below `i`. This is why skipping a cleared `i` loses nothing. |
| `Primes.PrimeNotSquareMultiple` | eratos3.c:244-245 | A prime at or above `i*i` is not a multiple of `i`, so the inner loop never clears a prime. |

## Left out

- `main` apart from its dispatch (eratos3.c:59-131). This covers the interactive `fgets` prompts, copying the file name, the advisory `.csv` extension warning and the console messages. These are I/O. The bound and the destination are parameters of `Run`.
- `read_cmnd_arg` (eratos3.c:134-213) and `print_help` (eratos3.c:216-224): command-line parsing and fixed help text, with no part in the sieve.
- Memory: the `malloc` call and its failure exit (eratos3.c:228-232), and `free_sieve` (eratos3.c:288-290). Dafny allocation does not fail. The C code asks for `(limit + 1) * sizeof(size_t)` bytes for an `int` array, which is more than it needs and harmless.
- File handling: the model does not open, truncate or close files (eratos3.c:268-272, 284). Whether the destination opens is the `destinationOpens` parameter of `CsvListing`. The result is the text the file would hold.
- Floating point: the bound `i <= sqrt(limit)` (eratos3.c:242) is modelled as the integer condition `i * i <= limit`. These agree for every bound an `unsigned` can hold.
- Fixed-width arithmetic: all indices are unbounded `nat`s. The model does not capture unsigned wrap-around of `i*i` and `j += i` near `UINT_MAX` (eratos3.c:244). Nor does it capture the signed `int` counter compared with an `unsigned` bound (eratos3.c:233) or the overflow of `limit + 1` at `UINT_MAX` (eratos3.c:228), or the emitters' `unsigned i <= limit` loops, which never end when `limit == UINT_MAX` (eratos3.c:254, 274). No bounded variant is given.
- Stdout and the file stream: the emitters return the text they would write, as one string each.
