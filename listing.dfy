/**
 * The two output formats of the sieve: the terminal listing (each prime
 * followed by a space, then a newline) and the CSV line (primes joined by
 * commas, then a newline), with the readers that take them apart again.
 */
module Listing {
  import opened Decimal
  import opened Primes

  /** The indices in [2, n) whose flag is set, ascending: what one scan of the table visits. */
  function Flagged(f: seq<bool>, n: nat): seq<nat>
    requires n <= |f|
  {
    if n <= 2 then [] else Flagged(f, n - 1) + (if f[n - 1] then [n - 1] else [])
  }

  /** A scan lists exactly the flagged indices in [2, n), each once, in ascending order. */
  lemma {:induction false} FlaggedSpec(f: seq<bool>, n: nat)
    requires n <= |f|
    ensures forall k: nat :: k in Flagged(f, n) <==> 2 <= k < n && f[k]
    ensures StrictlyIncreasing(Flagged(f, n))
  {
    if n > 2 {
      FlaggedSpec(f, n - 1);
      var p := Flagged(f, n - 1);
      forall a | 0 <= a < |p|
        ensures p[a] < n - 1
      {
        assert p[a] in p;
      }
    }
  }

  /** On a table whose flags are exactly primality, the scan lists exactly the primes. */
  lemma {:induction false} FlaggedOfSievedTable(f: seq<bool>, n: nat)
    requires n <= |f|
    requires forall k :: 0 <= k < |f| ==> f[k] == IsPrime(k)
    ensures Flagged(f, n) == PrimesBelow(n)
  {
    if n > 2 {
      FlaggedOfSievedTable(f, n - 1);
    }
  }

  /** Each number rendered by `%u`. */
  function Render(ns: seq<nat>): (ts: seq<string>)
    ensures |ts| == |ns|
  {
    if ns == [] then [] else Render(ns[..|ns| - 1]) + [NatToString(ns[|ns| - 1])]
  }

  /** Each string read as a number; `None` as soon as one is not a digit string. */
  function ParseAll(ts: seq<string>): Option<seq<nat>>
  {
    if ts == [] then Some([])
    else match (ParseAll(ts[..|ts| - 1]), ParseNat(ts[|ts| - 1]))
      case (Some(ns), Some(n)) => Some(ns + [n])
      case _ => None
  }

  lemma {:induction false} ParseAllRender(ns: seq<nat>)
    ensures ParseAll(Render(ns)) == Some(ns)
  {
    if ns != [] {
      var front := ns[..|ns| - 1];
      var ts := Render(ns);
      assert ts[..|ts| - 1] == Render(front);
      ParseAllRender(front);
      ParseNatToString(ns[|ns| - 1]);
      assert ns == front + [ns[|ns| - 1]];
    }
  }

  /** `ts` joined with `sep` between consecutive items, none before the first or after the last. */
  function Join(ts: seq<string>, sep: char): string
  {
    if ts == [] then ""
    else if |ts| == 1 then ts[0]
    else Join(ts[..|ts| - 1], sep) + [sep] + ts[|ts| - 1]
  }

  /** `s` cut at every occurrence of `sep`; always at least one part. */
  function Split(s: string, sep: char): (parts: seq<string>)
    ensures |parts| >= 1
  {
    if s == [] then [""]
    else
      var rest := Split(s[..|s| - 1], sep);
      if s[|s| - 1] == sep then rest + [""]
      else rest[..|rest| - 1] + [rest[|rest| - 1] + [s[|s| - 1]]]
  }

  /** Appending a separator opens a new, empty part. */
  lemma SplitAppendSep(a: string, sep: char)
    ensures Split(a + [sep], sep) == Split(a, sep) + [""]
  {
    assert (a + [sep])[..|a|] == a;
  }

  /** Appending text without a separator extends the last part. */
  lemma {:induction false} SplitAppendChunk(a: string, t: string, sep: char)
    requires sep !in t
    ensures var p := Split(a, sep);
      Split(a + t, sep) == p[..|p| - 1] + [p[|p| - 1] + t]
    decreases |t|
  {
    var p := Split(a, sep);
    if t == [] {
      assert a + t == a;
      assert p[|p| - 1] + t == p[|p| - 1];
      assert p == p[..|p| - 1] + [p[|p| - 1]];
    } else {
      var t' := t[..|t| - 1];
      var c := t[|t| - 1];
      assert t == t' + [c];
      assert a + t == (a + t') + [c];
      SplitAppendChunk(a, t', sep);
      assert (a + t)[..|a + t| - 1] == a + t';
      assert p[|p| - 1] + t == (p[|p| - 1] + t') + [c];
    }
  }

  /** Splitting undoes joining, when no item contains the separator. */
  lemma {:induction false} SplitJoin(ts: seq<string>, sep: char)
    requires |ts| >= 1
    requires forall i :: 0 <= i < |ts| ==> sep !in ts[i]
    ensures Split(Join(ts, sep), sep) == ts
  {
    if |ts| == 1 {
      SplitNoSep(ts[0], sep);
    } else {
      var front, last := ts[..|ts| - 1], ts[|ts| - 1];
      assert ts == front + [last];
      SplitJoin(front, sep);
      SplitJoinStep(front, last, sep);
    }
  }

  /** A string without the separator is a single part. */
  lemma SplitNoSep(t: string, sep: char)
    requires sep !in t
    ensures Split(t, sep) == [t]
  {
    SplitAppendChunk("", t, sep);
    assert "" + t == t;
  }

  /** Joining one more item adds exactly one more part to the split. */
  lemma SplitJoinStep(front: seq<string>, last: string, sep: char)
    requires |front| >= 1 && sep !in last
    requires Split(Join(front, sep), sep) == front
    ensures Split(Join(front + [last], sep), sep) == front + [last]
  {
    var j := Join(front, sep);
    assert (front + [last])[..|front|] == front;
    assert Join(front + [last], sep) == (j + [sep]) + last;
    SplitAppendSep(j, sep);
    SplitAppendChunk(j + [sep], last, sep);
    assert "" + last == last;
    assert (front + [""])[..|front|] == front;
  }

  /** `s` without its final newline, if it has one. */
  function StripNewline(s: string): string {
    if |s| > 0 && s[|s| - 1] == '\n' then s[..|s| - 1] else s
  }

  // ---- the terminal listing of print_primes ----

  /** Every number followed by one space. */
  function TextBody(ns: seq<nat>): string
  {
    if ns == [] then "" else TextBody(ns[..|ns| - 1]) + NatToString(ns[|ns| - 1]) + " "
  }

  /** The whole terminal output: the body, then the newline. */
  function TextLine(ns: seq<nat>): string
  {
    TextBody(ns) + "\n"
  }

  /** The terminal listing grows by one number and its space. */
  lemma TextBodyAppend(ns: seq<nat>, n: nat)
    ensures TextBody(ns + [n]) == TextBody(ns) + NatToString(n) + " "
  {
    assert (ns + [n])[..|ns|] == ns;
  }

  /** One step of the terminal scan at index `i`: write `i` and a space exactly when its flag is set. */
  lemma TextScanStep(f: seq<bool>, i: nat, out: string)
    requires 2 <= i < |f| && out == TextBody(Flagged(f, i))
    ensures (if f[i] then out + NatToString(i) + " " else out) == TextBody(Flagged(f, i + 1))
  {
    if f[i] {
      assert Flagged(f, i + 1) == Flagged(f, i) + [i];
      TextBodyAppend(Flagged(f, i), i);
    } else {
      assert Flagged(f, i) + [] == Flagged(f, i);
    }
  }

  /** Reads a terminal listing: space-terminated numbers followed by a newline. */
  function ReadText(line: string): Option<seq<nat>>
  {
    var parts := Split(StripNewline(line), ' ');
    if parts[|parts| - 1] != "" then None else ParseAll(parts[..|parts| - 1])
  }

  lemma {:induction false} SplitTextBody(ns: seq<nat>)
    ensures Split(TextBody(ns), ' ') == Render(ns) + [""]
  {
    if ns != [] {
      var front := ns[..|ns| - 1];
      var t := NatToString(ns[|ns| - 1]);
      SplitTextBody(front);
      NoSeparatorIn(ns[|ns| - 1], ' ');
      SplitAppendChunk(TextBody(front), t, ' ');
      SplitAppendSep(TextBody(front) + t, ' ');
      assert Render(front) + [""] == (Render(front) + [""])[..|Render(front)|] + [""];
      assert "" + t == t;
    }
  }

  /** The terminal listing reads back as the numbers it was made from. */
  lemma TextRoundTrip(ns: seq<nat>)
    ensures ReadText(TextLine(ns)) == Some(ns)
  {
    var line := TextLine(ns);
    assert StripNewline(line) == TextBody(ns);
    SplitTextBody(ns);
    var parts := Render(ns) + [""];
    assert parts[..|parts| - 1] == Render(ns);
    ParseAllRender(ns);
  }

  // ---- the CSV line of write_sieve_to_csv ----

  /** The whole CSV output: the numbers joined by commas, then the newline. */
  function CsvLine(ns: seq<nat>): string
  {
    Join(Render(ns), ',') + "\n"
  }

  /** The CSV body grows by one number, with a comma before it unless it is the first. */
  lemma JoinRenderAppend(ns: seq<nat>, n: nat)
    ensures Join(Render(ns + [n]), ',') ==
      if ns == [] then NatToString(n) else Join(Render(ns), ',') + "," + NatToString(n)
  {
    assert (ns + [n])[..|ns|] == ns;
    assert Render(ns + [n]) == Render(ns) + [NatToString(n)];
  }

  /**
   * One step of the CSV scan at index `i`: when its flag is set, write a comma
   * unless nothing was written yet, then `i`; afterwards something was written
   * exactly when some index up to `i` is set.
   */
  lemma CsvScanStep(f: seq<bool>, i: nat, out: string, first: bool)
    requires 2 <= i < |f| && out == Join(Render(Flagged(f, i)), ',')
    requires first <==> Flagged(f, i) == []
    ensures (if f[i] then (if first then out else out + ",") + NatToString(i) else out)
      == Join(Render(Flagged(f, i + 1)), ',')
    ensures (first && !f[i]) <==> Flagged(f, i + 1) == []
  {
    if f[i] {
      assert Flagged(f, i + 1) == Flagged(f, i) + [i];
      JoinRenderAppend(Flagged(f, i), i);
      assert |Flagged(f, i + 1)| > 0;
    } else {
      assert Flagged(f, i + 1) == Flagged(f, i);
    }
  }

  /** Reads a CSV line: comma-separated numbers followed by a newline. */
  function ReadCsv(line: string): Option<seq<nat>>
  {
    var body := StripNewline(line);
    if body == "" then Some([]) else ParseAll(Split(body, ','))
  }

  /** A non-empty join ends with its last item, so it is not empty when that item is not. */
  lemma JoinEndsWithLast(ts: seq<string>, sep: char)
    requires |ts| >= 1
    ensures |Join(ts, sep)| >= |ts[|ts| - 1]|
  {
  }

  /** The CSV line reads back as the numbers it was made from. */
  lemma CsvRoundTrip(ns: seq<nat>)
    ensures ReadCsv(CsvLine(ns)) == Some(ns)
  {
    var body := Join(Render(ns), ',');
    assert StripNewline(CsvLine(ns)) == body;
    if ns != [] {
      var ts := Render(ns);
      JoinEndsWithLast(ts, ',');
      forall i | 0 <= i < |ts|
        ensures ',' !in ts[i]
      {
        RenderAt(ns, i);
        NoSeparatorIn(ns[i], ',');
      }
      SplitJoin(ts, ',');
      ParseAllRender(ns);
    }
  }

  lemma {:induction false} RenderAt(ns: seq<nat>, i: nat)
    requires i < |ns|
    ensures Render(ns)[i] == NatToString(ns[i])
  {
    if i < |ns| - 1 {
      RenderAt(ns[..|ns| - 1], i);
    }
  }

  /** Both outputs of the same numbers read back as those same numbers, in the same order. */
  lemma EmittersAgree(ns: seq<nat>)
    ensures ReadText(TextLine(ns)) == ReadCsv(CsvLine(ns)) == Some(ns)
  {
    TextRoundTrip(ns);
    CsvRoundTrip(ns);
  }

  /** `s` with every `from` replaced by `to`. */
  function Replace(s: string, from: char, to: char): string
  {
    if s == [] then [] else Replace(s[..|s| - 1], from, to) + [if s[|s| - 1] == from then to else s[|s| - 1]]
  }

  lemma {:induction false} ReplaceAppend(a: string, b: string, from: char, to: char)
    ensures Replace(a + b, from, to) == Replace(a, from, to) + Replace(b, from, to)
    decreases |b|
  {
    if b != [] {
      var b' := b[..|b| - 1];
      assert a + b == (a + b') + [b[|b| - 1]];
      assert (a + b)[..|a + b| - 1] == a + b';
      ReplaceAppend(a, b', from, to);
    } else {
      assert a + b == a;
    }
  }

  lemma {:induction false} ReplaceAbsent(s: string, from: char, to: char)
    requires from !in s
    ensures Replace(s, from, to) == s
  {
    if s != [] {
      ReplaceAbsent(s[..|s| - 1], from, to);
      assert s == s[..|s| - 1] + [s[|s| - 1]];
    }
  }

  /**
   * The two formats differ only in separator and terminator: the terminal
   * listing is the CSV body with every comma turned into a space, plus a
   * trailing space before the newline.
   */
  lemma TextIsCsvRespaced(ns: seq<nat>)
    requires |ns| >= 1
    ensures TextLine(ns) == Replace(Join(Render(ns), ','), ',', ' ') + " \n"
  {
    TextBodyRespaced(ns);
  }

  lemma {:induction false} TextBodyRespaced(ns: seq<nat>)
    requires |ns| >= 1
    ensures TextBody(ns) == Replace(Join(Render(ns), ','), ',', ' ') + " "
  {
    var n := ns[|ns| - 1];
    var t := NatToString(n);
    var front := ns[..|ns| - 1];
    NoSeparatorIn(n, ',');
    ReplaceAbsent(t, ',', ' ');
    assert TextBody(ns) == TextBody(front) + t + " ";
    assert Render(ns) == Render(front) + [t];
    if |ns| == 1 {
      assert TextBody(front) == "";
      assert Join(Render(ns), ',') == t;
    } else {
      TextBodyRespaced(front);
      var j := Join(Render(front), ',');
      assert Join(Render(ns), ',') == j + [','] + t;
      ReplaceAppend(j + [','], t, ',', ' ');
      ReplaceAppend(j, [','], ',', ' ');
      assert Replace([','], ',', ' ') == [' '];
      assert Replace(j + [','] + t, ',', ' ') == Replace(j, ',', ' ') + [' '] + t;
    }
  }
}
