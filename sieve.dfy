/**
 * The sieve engine: a table of `limit + 1` primality flags that is built with
 * every entry set, has 0 and 1 cleared, is then thinned in place by the Sieve
 * of Eratosthenes, and is finally scanned by one of two emitters.
 */
module Eratosthenes {
  import opened Decimal
  import opened Primes
  import opened Listing

  /** What the CSV writer leaves at its destination. */
  datatype CsvWrite = OpenFailed | Written(contents: string)

  /** Where a run sends its listing: the terminal, or a CSV file that can or cannot be opened. */
  datatype Destination = Screen | CsvFile(opens: bool)

  /** What a run produces. */
  datatype Output = Terminal(text: string) | File(write: CsvWrite)

  // ---- the table as a value, and one round of the outer loop ----

  /** Every prime in the table is still set. */
  ghost predicate PrimesSet(f: seq<bool>) {
    forall k :: 0 <= k < |f| && IsPrime(k) ==> f[k]
  }

  /** Every entry with a proper divisor below `i` is cleared. */
  ghost predicate DivisorsCleared(f: seq<bool>, i: nat) {
    forall k :: 0 <= k < |f| && HasDivisorBelow(k, i) ==> !f[k]
  }

  /** `g` keeps every entry `f` has cleared. */
  ghost predicate ClearedStay(f: seq<bool>, g: seq<bool>) {
    |f| == |g| && forall k :: 0 <= k < |f| && !f[k] ==> !g[k]
  }

  /** A table no run of the sieve has damaged: 0 and 1 are cleared and every prime is still set. */
  ghost predicate NoPrimeCleared(f: seq<bool>) {
    |f| >= 2 && !f[0] && !f[1] && PrimesSet(f)
  }

  /** The table after the inner loop for `i`: i*i, i*i + i, ... cleared, the rest as it was. */
  ghost function CrossOff(f: seq<bool>, i: nat): (g: seq<bool>)
    requires 0 < i
    ensures |g| == |f|
  {
    seq(|f|, k requires 0 <= k < |f| => f[k] && !(i * i <= k && k % i == 0))
  }

  /** One round of the outer loop: cross off the multiples of `i` only if `i` is still set. */
  ghost function SieveRound(f: seq<bool>, i: nat): seq<bool>
    requires 0 < i < |f|
  {
    if f[i] then CrossOff(f, i) else f
  }

  /** A round never clears a prime and never sets a cleared entry. */
  lemma RoundKeepsPrimes(f: seq<bool>, i: nat)
    requires 2 <= i < |f| && PrimesSet(f)
    ensures PrimesSet(SieveRound(f, i)) && ClearedStay(f, SieveRound(f, i))
  {
    var g := SieveRound(f, i);
    forall k | 0 <= k < |f| && IsPrime(k)
      ensures g[k]
    {
      if f[i] && i * i <= k {
        PrimeNotSquareMultiple(k, i);
      }
    }
  }

  /**
   * The outer loop's invariant advances: after the round for `i`, every entry
   * with a proper divisor below `i + 1` is cleared.
   */
  lemma RoundClearsDivisors(f: seq<bool>, i: nat)
    requires 2 <= i < |f| && PrimesSet(f) && DivisorsCleared(f, i)
    ensures DivisorsCleared(SieveRound(f, i), i + 1)
  {
    var g := SieveRound(f, i);
    RoundKeepsPrimes(f, i);
    forall k | 0 <= k < |g| && HasDivisorBelow(k, i + 1)
      ensures !g[k]
    {
      var d :| 2 <= d < i + 1 && d < k && k % d == 0;
      if d < i {
        assert HasDivisorBelow(k, i);
      } else if f[i] && i * i <= k {
        assert g[k] == (f[k] && !(i * i <= k && k % i == 0));
      } else if f[i] {
        CofactorBelow(k, i);
      } else {
        DivisorOfNonPrime(k, i);
      }
    }
  }

  /** Once every entry with a divisor below `i` is cleared and i*i exceeds the table, only primes are set. */
  lemma SievedWhenSquareExceeds(f: seq<bool>, i: nat)
    requires |f| >= 2 && !f[0] && !f[1]
    requires PrimesSet(f) && DivisorsCleared(f, i) && |f| <= i * i
    ensures forall k :: 0 <= k < |f| ==> f[k] == IsPrime(k)
  {
    forall k | 2 <= k < |f| && !IsPrime(k)
      ensures HasDivisorBelow(k, i)
    {
      CompositeHasSmallDivisor(k, i);
    }
  }

  class Sieve {
    /** The upper bound N; the table covers 0..N. */
    const limit: nat
    /** `flags[k]` is true while `k` is still believed prime. */
    const flags: array<bool>

    ghost predicate Valid() {
      2 <= limit && flags.Length == limit + 1
    }

    /** The table after elimination: set exactly at the primes. */
    ghost predicate Sieved()
      reads flags
      requires Valid()
    {
      forall k :: 0 <= k <= limit ==> flags[k] == IsPrime(k)
    }

    /** initialize_sieve: `limit + 1` entries, all set, then 0 and 1 cleared. */
    constructor Initialize(limit: nat)
      requires 2 <= limit
      ensures Valid() && this.limit == limit && fresh(flags)
      ensures !flags[0] && !flags[1]
      ensures forall k :: 2 <= k <= limit ==> flags[k]
      ensures NoPrimeCleared(flags[..])
    {
      var a := new bool[limit + 1];
      var i := 0;
      while i <= limit
        invariant 0 <= i <= limit + 1
        invariant forall k :: 0 <= k < i ==> a[k]
      {
        a[i] := true;
        i := i + 1;
      }
      a[0] := false;
      a[1] := false;
      this.limit := limit;
      flags := a;
    }

    /**
     * The inner loop of sieve_of_eratosthenes for one `i`: clears
     * i*i, i*i + i, ... up to `limit` and nothing else.
     */
    method ClearMultiples(i: nat)
      requires Valid() && 2 <= i && i * i <= limit
      modifies flags
      ensures flags[..] == CrossOff(old(flags[..]), i)
    {
      var square := i * i;
      var j := square;
      ProductModFactor(i, i);
      while j <= limit
        invariant square <= j <= limit + i && j % i == 0
        invariant forall k :: 0 <= k <= limit ==>
          flags[k] == (old(flags[k]) && !(square <= k < j && k % i == 0))
        decreases limit + i - j
      {
        flags[j] := false;
        NextMultiple(j, i);
        j := j + i;
      }
    }

    /**
     * sieve_of_eratosthenes: for every `i` with i*i <= limit whose flag is
     * still set, clears its multiples from i*i on. Afterwards the flags are
     * set exactly at the primes, and no cleared flag was set again.
     */
    method Eliminate()
      requires Valid() && NoPrimeCleared(flags[..])
      modifies flags
      ensures Sieved()
      ensures ClearedStay(old(flags[..]), flags[..])
      ensures old(Sieved()) ==> flags[..] == old(flags[..])
    {
      var i := 2;
      while i * i <= limit
        invariant 2 <= i <= limit + 1
        invariant ClearedStay(old(flags[..]), flags[..])
        invariant PrimesSet(flags[..]) && DivisorsCleared(flags[..], i)
        decreases limit + 1 - i
      {
        MulMonotone(2, i, i);
        ghost var before := flags[..];
        if flags[i] {
          ClearMultiples(i);
        }
        assert flags[..] == SieveRound(before, i);
        RoundKeepsPrimes(before, i);
        RoundClearsDivisors(before, i);
        i := i + 1;
      }
      SievedWhenSquareExceeds(flags[..], i);
      assert old(Sieved()) ==> forall k :: 0 <= k <= limit ==> flags[k] == old(flags[k]);
    }

    /** print_primes: every set index from 2 up, each followed by a space, then a newline. */
    method TextListing() returns (out: string)
      requires Valid()
      ensures out == TextLine(Flagged(flags[..], limit + 1))
    {
      ghost var f := flags[..];
      out := "";
      var i := 2;
      while i <= limit
        invariant 2 <= i <= limit + 1
        invariant out == TextBody(Flagged(f, i))
      {
        TextScanStep(f, i, out);
        if flags[i] {
          out := out + NatToString(i) + " ";
        }
        i := i + 1;
      }
      out := out + "\n";
    }

    /**
     * write_sieve_to_csv: when the destination cannot be opened nothing is
     * written; otherwise the set indices from 2 up, a comma before every one
     * but the first, then a newline.
     */
    method CsvListing(destinationOpens: bool) returns (w: CsvWrite)
      requires Valid()
      ensures !destinationOpens <==> w == OpenFailed
      ensures destinationOpens ==> w.contents == CsvLine(Flagged(flags[..], limit + 1))
    {
      if !destinationOpens {
        return OpenFailed;
      }
      ghost var f := flags[..];
      var out := "";
      var first := true;
      var i := 2;
      while i <= limit
        invariant 2 <= i <= limit + 1
        invariant out == Join(Render(Flagged(f, i)), ',')
        invariant first <==> Flagged(f, i) == []
      {
        CsvScanStep(f, i, out, first);
        if flags[i] {
          if !first {
            out := out + ",";
          }
          out := out + NatToString(i);
          first := false;
        }
        assert out == Join(Render(Flagged(f, i + 1)), ',');
        i := i + 1;
      }
      out := out + "\n";
      w := Written(out);
    }
  }

  /**
   * One run of the engine for a bound and a destination: build the table,
   * sieve it, then write it with the emitter the destination selects.
   */
  method Run(limit: nat, destination: Destination) returns (o: Output)
    requires 2 <= limit
    ensures destination == Screen ==> o == Terminal(TextLine(PrimesBelow(limit + 1)))
    ensures destination == CsvFile(false) ==> o == File(OpenFailed)
    ensures destination == CsvFile(true) ==> o == File(Written(CsvLine(PrimesBelow(limit + 1))))
  {
    var table := new Sieve.Initialize(limit);
    table.Eliminate();
    FlaggedOfSievedTable(table.flags[..], limit + 1);
    ghost var primes := PrimesBelow(limit + 1);
    assert Flagged(table.flags[..], limit + 1) == primes;
    match destination
    case Screen =>
      var text := table.TextListing();
      o := Terminal(text);
    case CsvFile(opens) =>
      var w := table.CsvListing(opens);
      o := File(w);
  }

  /** The smallest bound: the terminal gets "2 \n" and the CSV file "2\n". */
  lemma SmallestBoundListings()
    ensures TextLine(PrimesBelow(3)) == "2 \n"
    ensures CsvLine(PrimesBelow(3)) == "2\n"
  {
    PrimesBelowThree();
    ListingsOfTwo();
  }

  lemma PrimesBelowThree()
    ensures PrimesBelow(3) == [2]
  {
    assert IsPrime(2);
  }

  lemma ListingsOfTwo()
    ensures TextLine([2]) == "2 \n" && CsvLine([2]) == "2\n"
  {
    assert NatToString(2) == "2";
    assert TextBody([2]) == "2 ";
    assert Render([2]) == ["2"];
  }

  /** Perfect squares are never in the reference list of primes, whatever the bound. */
  lemma SquareNeverListed(p: nat, n: nat)
    requires 2 <= p
    ensures p * p !in PrimesBelow(n)
  {
    PrimesBelowSpec(n);
    MulMonotone(2, p, p);
    ProductModFactor(p, p);
    MultipleNotPrime(p * p, p);
  }

  /**
   * The boundary of the outer loop's guard: with the bound p*p itself, the
   * round i = p (where i*i == limit) still runs, so entry p*p ends up cleared.
   */
  method SquareCleared(p: nat) returns (survives: bool)
    requires 2 <= p
    ensures !survives
  {
    MulMonotone(2, p, p);
    var table := new Sieve.Initialize(p * p);
    table.Eliminate();
    survives := table.flags[p * p];
    ProductModFactor(p, p);
    MultipleNotPrime(p * p, p);
  }

  /** For every accepted bound, the terminal listing of a finished table is its CSV body respaced. */
  lemma FinishedListingsRespaced(limit: nat)
    requires 2 <= limit
    ensures TextLine(PrimesBelow(limit + 1))
      == Replace(Join(Render(PrimesBelow(limit + 1)), ','), ',', ' ') + " \n"
  {
    TwoIsListed(limit);
    TextIsCsvRespaced(PrimesBelow(limit + 1));
  }
}
