/**
 * The test counter of leetcode/parser/parser.c: read a file in chunks of
 * at most 1023 bytes, count the occurrences of "void test" inside each
 * chunk (skipping past every match), and print "1;2;...;n" for a count n.
 * The file system is a parameter: whether the file opens, its contents,
 * and whether it closes.
 */
module Parser {
  /** The signature searched for, and its length as `strnlen` gives it. */
  const Sig: string := "void test"
  const SigLen := 9

  /** `char buffer[BUFFER_SIZE]`, of which one read fills at most BUFFER_SIZE - 1 bytes. */
  const BufferSize := 1024
  const ReadSize := BufferSize - 1

  /** size_t arithmetic wraps modulo 2^64. */
  const SizeModulus := 0x1_0000_0000_0000_0000

  /** The signature starts at position k of s and fits inside s. */
  predicate MatchAt(s: string, k: int)
  {
    0 <= k && k + SigLen <= |s| && s[k..k + SigLen] == Sig
  }

  /** The number of positions from i on at which the signature starts. */
  function Occurrences(s: string, i: nat): (n: nat)
    ensures i + SigLen > |s| ==> n == 0
    ensures n <= |s| - i || i >= |s|
    decreases |s| - i
  {
    if i >= |s| then 0
    else (if MatchAt(s, i) then 1 else 0) + Occurrences(s, i + 1)
  }

  /**
   * No match starts strictly inside another: the signature's only 'v' is
   * its first character, so positions i + 1 .. i + d - 1 hold no match.
   */
  lemma {:induction false} NoMatchInside(s: string, i: nat, d: nat)
    requires MatchAt(s, i) && 1 <= d <= SigLen
    ensures Occurrences(s, i + 1) == Occurrences(s, i + d)
  {
    if d > 1 {
      NoMatchInside(s, i, d - 1);
      var k := i + d - 1;
      assert s[k] == s[i..i + SigLen][d - 1] == Sig[d - 1];
      assert !MatchAt(s, k) by {
        if k + SigLen <= |s| {
          assert s[k..k + SigLen][0] == s[k] != 'v';
        }
      }
    }
  }

  /** Skipping past a match loses no other match. */
  lemma SkipMatch(s: string, i: nat)
    requires MatchAt(s, i)
    ensures Occurrences(s, i) == 1 + Occurrences(s, i + SigLen)
  {
    NoMatchInside(s, i, SigLen);
  }

  /**
   * The number of start positions the for loop tries on a chunk of n
   * bytes, computed without wrap-around: every window that fits, and none
   * when the chunk is shorter than the signature.
   */
  function ScanBound(n: nat): (b: nat)
    ensures n + 1 >= SigLen ==> b + SigLen == n + 1
    ensures n < SigLen ==> b == 0
  {
    if n + 1 >= SigLen then n + 1 - SigLen else 0
  }

  /** `num_read - sig_len + 1` as written: the subtraction is done in size_t. */
  function ScanBoundAsWritten(n: nat): (b: nat)
    requires n < SizeModulus
    ensures b < SizeModulus
  {
    (n - SigLen + 1) % SizeModulus
  }

  /** From 8 bytes on, the written bound is the intended one. */
  lemma ScanBoundAgrees(n: nat)
    requires SigLen - 1 <= n < SizeModulus
    ensures ScanBoundAsWritten(n) == ScanBound(n)
  {
  }

  /**
   * A chunk of fewer than 8 bytes (the last read of a file whose size is a
   * multiple of 1023, an empty file, or a short tail) wraps the bound
   * around to nearly 2^64, so the loop reads far beyond `buffer`.
   */
  lemma ShortChunkOverrunsAsWritten(n: nat)
    requires n < SigLen - 1
    ensures ScanBoundAsWritten(n) == SizeModulus - (SigLen - 1 - n) > BufferSize
    ensures ScanBound(n) == 0
  {
  }

  /**
   * The for loop over one chunk: a 'v' followed by the rest of the
   * signature counts and moves the index past the match. Every occurrence
   * in the chunk is counted.
   */
  method CountInChunk(buffer: string) returns (count: nat)
    requires |buffer| <= ReadSize
    ensures count == Occurrences(buffer, 0)
  {
    var bound := ScanBound(|buffer|);
    count := 0;
    var i := 0;
    while i < bound
      invariant 0 <= i <= |buffer|
      invariant count + Occurrences(buffer, i) == Occurrences(buffer, 0)
    {
      if buffer[i] == 'v' {
        if buffer[i..i + SigLen] == Sig {
          SkipMatch(buffer, i);
          i := i + SigLen - 1;
          count := count + 1;
        }
      }
      i := i + 1;
    }
  }

  /** The strings joined one after another. */
  function Flatten(cs: seq<string>): string
  {
    if cs == [] then [] else cs[0] + Flatten(cs[1..])
  }

  /**
   * The chunks successive reads return: full 1023-byte reads while they
   * last, then one shorter read (empty when the size is a multiple of 1023).
   */
  function Chunks(f: string): (cs: seq<string>)
    ensures |cs| >= 1 && |cs[|cs| - 1]| < ReadSize
    ensures forall k :: 0 <= k < |cs| - 1 ==> |cs[k]| == ReadSize
    decreases |f|
  {
    if |f| < ReadSize then [f] else [f[..ReadSize]] + Chunks(f[ReadSize..])
  }

  /** The chunks put back together are the file. */
  lemma {:induction false} ChunksCover(f: string)
    ensures Flatten(Chunks(f)) == f
    decreases |f|
  {
    if |f| >= ReadSize {
      var cs := Chunks(f);
      assert cs[1..] == Chunks(f[ReadSize..]);
      ChunksCover(f[ReadSize..]);
      assert f == f[..ReadSize] + f[ReadSize..];
    }
  }

  /** The counts of the chunks, added up. */
  function ChunkTotal(cs: seq<string>): nat
  {
    if cs == [] then 0 else Occurrences(cs[0], 0) + ChunkTotal(cs[1..])
  }

  /**
   * The do-while loop: read a chunk, count in it, and go on while a read
   * fills the 1023 bytes it asked for.
   */
  method CountInFile(file: string) returns (count: nat)
    ensures count == ChunkTotal(Chunks(file))
  {
    count := 0;
    var rest := file;
    var numRead := ReadSize;
    while numRead == ReadSize
      invariant numRead == ReadSize ==> count + ChunkTotal(Chunks(rest)) == ChunkTotal(Chunks(file))
      invariant numRead != ReadSize ==> count == ChunkTotal(Chunks(file))
      decreases |rest| + (if numRead == ReadSize then 1 else 0)
    {
      var cs := Chunks(rest);
      numRead := if |rest| < ReadSize then |rest| else ReadSize;
      var buffer := rest[..numRead];
      assert cs[0] == buffer;
      assert ChunkTotal(cs) == Occurrences(buffer, 0) + ChunkTotal(cs[1..]);
      if numRead == ReadSize {
        assert cs[1..] == Chunks(rest[ReadSize..]);
      } else {
        assert cs[1..] == [];
      }
      rest := rest[numRead..];
      var found := CountInChunk(buffer);
      count := count + found;
    }
  }

  /** Matches inside the pieces are matches of the whole: a positions-from-i form. */
  lemma {:induction false} OccurrencesShift(a: string, b: string, k: nat)
    ensures Occurrences(a + b, |a| + k) == Occurrences(b, k)
    decreases |b| - k
  {
    if k < |b| {
      OccurrencesShift(a, b, k + 1);
      if |a| + k + SigLen <= |a + b| {
        assert (a + b)[|a| + k..|a| + k + SigLen] == b[k..k + SigLen];
      }
    }
  }

  lemma {:induction false} OccurrencesSplitFrom(a: string, b: string, i: nat)
    requires i <= |a|
    ensures Occurrences(a + b, i) >= Occurrences(a, i) + Occurrences(b, 0)
    ensures |a| >= 4 && |b| >= 5 && a[|a| - 4..] == "void" && b[..5] == " test" && i <= |a| - 4
      ==> Occurrences(a + b, i) >= Occurrences(a, i) + Occurrences(b, 0) + 1
    decreases |a| - i
  {
    if i == |a| {
      OccurrencesShift(a, b, 0);
    } else {
      OccurrencesSplitFrom(a, b, i + 1);
      if MatchAt(a, i) {
        assert (a + b)[i..i + SigLen] == a[i..i + SigLen];
      }
      if |a| >= 4 && |b| >= 5 && a[|a| - 4..] == "void" && b[..5] == " test" && i == |a| - 4 {
        assert (a + b)[i..i + SigLen] == a[|a| - 4..] + b[..5];
        assert !MatchAt(a, i);
      }
    }
  }

  /** Counting chunk by chunk never finds more than the whole file holds. */
  lemma {:induction false} ChunkTotalAtMost(cs: seq<string>)
    ensures ChunkTotal(cs) <= Occurrences(Flatten(cs), 0)
  {
    if cs != [] {
      ChunkTotalAtMost(cs[1..]);
      OccurrencesSplitFrom(cs[0], Flatten(cs[1..]), 0);
    }
  }

  /** A match cut in two by a chunk boundary ("void" | " test") is not counted. */
  lemma StraddlingMatchMissed(a: string, b: string)
    requires |a| >= 4 && |b| >= 5 && a[|a| - 4..] == "void" && b[..5] == " test"
    ensures Occurrences(a, 0) + Occurrences(b, 0) < Occurrences(a + b, 0)
  {
    OccurrencesSplitFrom(a, b, 0);
  }

  /** The decimal digit for d. */
  function Digit(d: nat): (c: char)
    requires d < 10
    ensures '0' <= c <= '9' && c as int - '0' as int == d
  {
    (d + '0' as int) as char
  }

  /** `%d` of a non-negative number: its decimal digits, without leading zeros. */
  function Decimal(n: nat): (r: string)
    ensures |r| >= 1 && forall k :: 0 <= k < |r| ==> '0' <= r[k] <= '9'
    ensures n > 0 ==> r[0] != '0'
  {
    if n < 10 then [Digit(n)] else Decimal(n / 10) + [Digit(n % 10)]
  }

  /** The number a string of decimal digits denotes. */
  function Value(s: string): nat
    requires forall k :: 0 <= k < |s| ==> '0' <= s[k] <= '9'
  {
    if s == [] then 0 else 10 * Value(s[..|s| - 1]) + (s[|s| - 1] as int - '0' as int)
  }

  /** Reading the printed digits back gives the number. */
  lemma {:induction false} DecimalRoundTrip(n: nat)
    ensures Value(Decimal(n)) == n
  {
    if n >= 10 {
      DecimalRoundTrip(n / 10);
      var r := Decimal(n);
      assert r[..|r| - 1] == Decimal(n / 10);
    }
  }

  /** The strings with ';' between neighbours and after none of them. */
  function Join(xs: seq<string>): string
  {
    if xs == [] then ""
    else if |xs| == 1 then xs[0]
    else xs[0] + ";" + Join(xs[1..])
  }

  /** One more string at the back costs one more separator. */
  lemma {:induction false} JoinSnoc(xs: seq<string>, x: string)
    requires xs != []
    ensures Join(xs + [x]) == Join(xs) + ";" + x
  {
    if |xs| == 1 {
      assert (xs + [x])[1..] == [x];
    } else {
      assert (xs + [x])[1..] == xs[1..] + [x];
      JoinSnoc(xs[1..], x);
    }
  }

  /** "1", "2", ..., the decimal forms of 1 to count. */
  function Numbers(count: nat): (ns: seq<string>)
    ensures |ns| == count && forall k :: 0 <= k < count ==> ns[k] == Decimal(k + 1)
  {
    seq(count, k requires 0 <= k => Decimal(k + 1))
  }

  /** One turn of the output loop: writing "%d;" for i leaves room for i + 1 as the last field. */
  lemma FormatStep(out: string, i: nat)
    requires 1 <= i && out + Decimal(i) == Join(Numbers(i))
    ensures out + Decimal(i) + ";" + Decimal(i + 1) == Join(Numbers(i + 1))
  {
    JoinSnoc(Numbers(i), Decimal(i + 1));
    assert Numbers(i + 1) == Numbers(i) + [Decimal(i + 1)];
  }

  /** The output loop: "%d;" for 1 .. count - 1, then "%d" for count; nothing for 0. */
  method FormatCount(count: nat) returns (out: string)
    ensures out == Join(Numbers(count))
  {
    out := "";
    if count > 0 {
      var i := 1;
      while i < count
        invariant 1 <= i <= count && out + Decimal(i) == Join(Numbers(i))
      {
        FormatStep(out, i);
        out := out + Decimal(i) + ";";
        i := i + 1;
      }
      out := out + Decimal(count);
    }
  }

  /** Cut a string at every ';'. */
  function Split(s: string): (r: seq<string>)
    ensures |r| >= 1
  {
    if s == [] then [""]
    else if s[0] == ';' then [""] + Split(s[1..])
    else var rest := Split(s[1..]); [[s[0]] + rest[0]] + rest[1..]
  }

  lemma {:induction false} SplitPlain(x: string)
    requires ';' !in x
    ensures Split(x) == [x]
  {
    if x != [] {
      assert x[0] != ';' && ';' !in x[1..] by {
        assert x[0] in x;
        assert forall c :: c in x[1..] ==> c in x;
      }
      SplitPlain(x[1..]);
      assert [x[0]] + x[1..] == x;
    }
  }

  lemma {:induction false} SplitAtSeparator(x: string, t: string)
    requires ';' !in x
    ensures Split(x + ";" + t) == [x] + Split(t)
  {
    if x == [] {
      assert x + ";" + t == [';'] + t;
      assert ([';'] + t)[1..] == t;
    } else {
      assert (x + ";" + t)[1..] == x[1..] + ";" + t;
      SplitAtSeparator(x[1..], t);
      assert [x[0]] + x[1..] == x;
    }
  }

  /** Cutting the output at ';' gives back the strings joined, when none holds a ';'. */
  lemma {:induction false} SplitJoin(xs: seq<string>)
    requires xs != [] && forall k :: 0 <= k < |xs| ==> ';' !in xs[k]
    ensures Split(Join(xs)) == xs
  {
    if |xs| == 1 {
      SplitPlain(xs[0]);
    } else {
      SplitAtSeparator(xs[0], Join(xs[1..]));
      SplitJoin(xs[1..]);
    }
  }

  /** The printed count reads back as "1", "2", ..., count: the i-th field is the number i. */
  lemma OutputFields(count: nat)
    requires count > 0
    ensures |Split(Join(Numbers(count)))| == count
    ensures forall k :: 0 <= k < count ==> Split(Join(Numbers(count)))[k] == Decimal(k + 1)
  {
    var ns := Numbers(count);
    forall k | 0 <= k < count
      ensures ';' !in ns[k]
    {
      assert forall m :: 0 <= m < |ns[k]| ==> '0' <= ns[k][m] <= '9';
    }
    SplitJoin(ns);
  }

  /** What the program leaves behind: its exit code and what it printed to stdout. */
  datatype Outcome = Outcome(exitCode: int, stdout: string)

  const Usage := "USAGE: parse <FILENAME>, missing FILENAME\n"

  /**
   * main: without a file name, print the usage line and return 0; if the
   * file cannot be opened or closed, return -1 (the message goes to
   * stderr); otherwise print the numbered count and return 0.
   */
  method Run(hasFileName: bool, openOk: bool, file: string, closeOk: bool) returns (o: Outcome)
    ensures !hasFileName ==> o == Outcome(0, Usage)
    ensures hasFileName && !(openOk && closeOk) ==> o == Outcome(-1, "")
    ensures hasFileName && openOk && closeOk ==> o == Outcome(0, Join(Numbers(ChunkTotal(Chunks(file)))))
  {
    if !hasFileName {
      return Outcome(0, Usage);
    }
    if !openOk {
      return Outcome(-1, "");
    }
    var count := CountInFile(file);
    if !closeOk {
      return Outcome(-1, "");
    }
    var out := FormatCount(count);
    return Outcome(0, out);
  }

  /** Known outputs: nothing for 0, "1;2;3" for 3, and "12" is how 12 prints. */
  lemma KnownOutputs()
    ensures Join(Numbers(0)) == ""
    ensures Join(Numbers(3)) == "1;2;3"
    ensures Decimal(12) == "12"
  {
    var ns := Numbers(3);
    assert ns == ["1", "2", "3"];
    assert ns[1..] == ["2", "3"];
    assert ns[1..][1..] == ["3"];
  }
}
