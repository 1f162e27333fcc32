/**
 * String helpers (`StringUtil`): repetition, runs of equal characters,
 * comma-separated number lists, reversal, character-set union and
 * difference, sorting, counting and left padding. Characters compare by
 * their code, as Java's `char` does.
 */
module StringUtil {
  import opened Wrappers
  import opened Numeric
  import Text

  /** `str` written n times in a row, as the repeat loop appends it. */
  function Repeated(str: string, n: nat): (r: string)
    ensures |r| == n * |str|
  {
    if n == 0 then "" else Repeated(str, n - 1) + str
  }

  /** n copies of one character. */
  function Fill(c: char, n: nat): (r: string)
    ensures |r| == n
  {
    if n == 0 then "" else Fill(c, n - 1) + [c]
  }

  /** Filling is repeating the one-character string. */
  lemma {:induction false} FillIsRepeated(c: char, n: nat)
    ensures Fill(c, n) == Repeated([c], n)
  {
    if n > 0 {
      FillIsRepeated(c, n - 1);
    }
  }

  /** Repeating a one-character string n times gives n copies of that character and nothing else. */
  lemma {:induction false} FillIsConstant(c: char, n: nat)
    ensures |Fill(c, n)| == n
    ensures forall i :: 0 <= i < n ==> Fill(c, n)[i] == c
  {
    if n > 0 {
      FillIsConstant(c, n - 1);
      assert Fill(c, n) == Fill(c, n - 1) + [c];
    }
  }

  /** Repetition adds up: a repetitions followed by b repetitions are a + b repetitions. */
  lemma {:induction false} RepeatedAdds(str: string, a: nat, b: nat)
    ensures Repeated(str, a) + Repeated(str, b) == Repeated(str, a + b)
    decreases b
  {
    if b > 0 {
      RepeatedAdds(str, a, b - 1);
    }
  }

  /** `repeat(char, n)`: a negative count throws IllegalArgumentException. */
  function RepeatChar(c: char, n: int): (r: Result<string>)
    ensures r.Err? <==> n < 0
    ensures r.Err? ==> r.error == IllegalArgument
    ensures r.Ok? ==> |r.value| == n && forall i :: 0 <= i < n ==> r.value[i] == c
  {
    if n < 0 then Err(IllegalArgument)
    else
      FillIsConstant(c, n);
      Ok(Fill(c, n))
  }

  /** An offset j inside the (k+1)-th block of length len is position j of that block. */
  lemma ModInBlock(k: int, len: int, j: int)
    requires len > 0 && 0 <= j < len
    ensures (k * len + j) % len == j
  {
    var x := k * len + j;
    var q := x / len;
    var r := x % len;
    assert x == q * len + r;
    assert (q - k) * len == j - r;
    if q - k >= 1 {
      MulAtLeast(len, q - k);
    } else if q - k <= -1 {
      MulAtLeast(len, k - q);
    }
    assert q == k;
  }

  /** Position i of the repetition is position i mod |str| of str. */
  lemma {:induction false} RepeatedAt(str: string, n: nat)
    ensures forall i :: 0 <= i < |Repeated(str, n)| ==> |str| > 0 && Repeated(str, n)[i] == str[i % |str|]
  {
    if n > 0 {
      RepeatedAt(str, n - 1);
      var prev := Repeated(str, n - 1);
      assert Repeated(str, n) == prev + str;
      forall i | 0 <= i < |Repeated(str, n)|
        ensures |str| > 0 && Repeated(str, n)[i] == str[i % |str|]
      {
        if i < |prev| {
          assert Repeated(str, n)[i] == prev[i];
        } else {
          ModInBlock(n - 1, |str|, i - |prev|);
          assert i == (n - 1) * |str| + (i - |prev|);
        }
      }
    } else {
      assert Repeated(str, n) == "";
    }
  }

  /** `repeat(String, n)`: the string n times; a negative count throws IllegalArgumentException. */
  function RepeatString(str: string, n: int): (r: Result<string>)
    ensures r.Err? <==> n < 0
    ensures r.Err? ==> r.error == IllegalArgument
    ensures r.Ok? ==> |r.value| == n * |str|
    ensures r.Ok? ==> forall i :: 0 <= i < |r.value| ==> |str| > 0 && r.value[i] == str[i % |str|]
  {
    if n < 0 then Err(IllegalArgument)
    else
      RepeatedAt(str, n);
      Ok(Repeated(str, n))
  }

  /** A maximal block of one repeated character. */
  datatype Run = Run(ch: char, len: nat)

  /** The runs of a string from left to right, built by extending the last run or starting a new one. */
  function Runs(s: string): (rs: seq<Run>)
    ensures |s| == 0 <==> |rs| == 0
    decreases |s|
  {
    if |s| == 0 then [] else Push(Runs(s[..|s| - 1]), s[|s| - 1])
  }

  /** One more character: lengthen the last run when it is the same character, else open a new run. */
  function Push(rs: seq<Run>, c: char): (out: seq<Run>)
    ensures |out| > 0 && out[|out| - 1].ch == c
  {
    if |rs| > 0 && rs[|rs| - 1].ch == c then
      rs[..|rs| - 1] + [Run(c, rs[|rs| - 1].len + 1)]
    else
      rs + [Run(c, 1)]
  }

  /** The characters the runs stand for. */
  function Expand(rs: seq<Run>): string
  {
    if |rs| == 0 then "" else Expand(rs[..|rs| - 1]) + Fill(rs[|rs| - 1].ch, rs[|rs| - 1].len)
  }

  /** Every run is non-empty and differs in character from its neighbour. */
  predicate Maximal(rs: seq<Run>)
  {
    (forall i :: 0 <= i < |rs| ==> rs[i].len >= 1)
    && (forall i :: 0 < i < |rs| ==> rs[i - 1].ch != rs[i].ch)
  }

  /** The runs spell the string back, and they are maximal. */
  lemma RunsSpellString(s: string)
    ensures Expand(Runs(s)) == s
    ensures Maximal(Runs(s))
  {
    RunsExpand(s);
    RunsMaximal(s);
  }

  lemma {:induction false} RunsExpand(s: string)
    ensures Expand(Runs(s)) == s
    decreases |s|
  {
    if |s| > 0 {
      var p, c := s[..|s| - 1], s[|s| - 1];
      assert Runs(s) == Push(Runs(p), c);
      RunsExpand(p);
      PushExpand(Runs(p), c);
      assert p + [c] == s;
    }
  }

  /** Pushing a character appends it to what the runs spell. */
  lemma PushExpand(rs: seq<Run>, c: char)
    ensures Expand(Push(rs, c)) == Expand(rs) + [c]
  {
    var out := Push(rs, c);
    if |rs| > 0 && rs[|rs| - 1].ch == c {
      var front := rs[..|rs| - 1];
      assert front + [rs[|rs| - 1]] == rs;
      assert Expand(rs) == Expand(front) + Fill(c, rs[|rs| - 1].len);
      assert out[..|out| - 1] == front;
    } else {
      assert out[..|out| - 1] == rs;
    }
  }

  lemma {:induction false} RunsMaximal(s: string)
    ensures Maximal(Runs(s))
    decreases |s|
  {
    if |s| > 0 {
      RunsMaximal(s[..|s| - 1]);
    }
  }

  /** The runs whose length lies in [minlength, maxlength], each written out. */
  function Kept(rs: seq<Run>, minlength: int, maxlength: int): (out: seq<string>)
    ensures |out| <= |rs|
  {
    if |rs| == 0 then [] else Flush(Kept(rs[..|rs| - 1], minlength, maxlength), rs[|rs| - 1], minlength, maxlength)
  }

  /** Closing a run appends it, written out, when its length is in range. */
  function Flush(seqs: seq<string>, run: Run, minlength: int, maxlength: int): (out: seq<string>)
    ensures minlength <= run.len <= maxlength ==> out == seqs + [Fill(run.ch, run.len)]
    ensures !(minlength <= run.len <= maxlength) ==> out == seqs
  {
    if minlength <= run.len <= maxlength then seqs + [Fill(run.ch, run.len)] else seqs
  }

  /** The empty string the first character's flush emits when a zero length is allowed. */
  function Lead(minlength: int, maxlength: int): seq<string>
  {
    if minlength <= 0 <= maxlength then [""] else []
  }

  /**
   * `getRepeatingSequences(input, minlength, maxlength)`: the maximal runs
   * whose length is in range, in order. Input shorter than minlength gives
   * nothing; an empty input with minlength at most 0 reads `charAt(0)` and
   * throws. The first character always closes a zero-length run, which
   * contributes "" when zero is an allowed length.
   */
  method GetRepeatingSequences(input: string, minlength: int, maxlength: int) returns (r: Result<seq<string>>)
    ensures |input| < minlength ==> r == Ok([])
    ensures minlength <= |input| == 0 ==> r == Err(IndexOutOfBounds)
    ensures minlength <= |input| && |input| > 0 ==>
              r == Ok(Lead(minlength, maxlength) + Kept(Runs(input), minlength, maxlength))
  {
    if |input| < minlength {
      return Ok([]);
    }
    if |input| == 0 {
      return Err(IndexOutOfBounds);
    }
    var seqs := ScanRuns(input, minlength, maxlength);
    r := Ok(seqs);
  }

  /** The scanning loop of `getRepeatingSequences` over a non-empty input. */
  method ScanRuns(input: string, minlength: int, maxlength: int) returns (seqs: seq<string>)
    requires |input| > 0
    ensures seqs == Lead(minlength, maxlength) + Kept(Runs(input), minlength, maxlength)
  {
    // the first character never equals the seed `input[0] - 1`: close the empty run
    seqs := Lead(minlength, maxlength);
    var prev := input[0];
    var len: nat := 1;
    ghost var closed: seq<Run> := [];
    var i := 1;
    assert input[..1] == [input[0]];
    while i < |input|
      invariant 1 <= i <= |input|
      invariant prev == input[i - 1]
      invariant Runs(input[..i]) == closed + [Run(prev, len)]
      invariant seqs == Lead(minlength, maxlength) + Kept(closed, minlength, maxlength)
    {
      var c := input[i];
      RunsExtend(input, i, closed, prev, len);
      if prev == c {
        len := len + 1;
      } else {
        KeptSnoc(Lead(minlength, maxlength), closed, Run(prev, len), minlength, maxlength);
        seqs := Flush(seqs, Run(prev, len), minlength, maxlength);
        closed := closed + [Run(prev, len)];
        len := 1;
      }
      prev := c;
      i := i + 1;
    }
    assert input[..i] == input;
    KeptSnoc(Lead(minlength, maxlength), closed, Run(prev, len), minlength, maxlength);
    seqs := Flush(seqs, Run(prev, len), minlength, maxlength);
  }

  /** Reading one more character extends the last run or starts a new one. */
  lemma RunsExtend(s: string, i: nat, closed: seq<Run>, prev: char, len: nat)
    requires 1 <= i < |s| && prev == s[i - 1]
    requires Runs(s[..i]) == closed + [Run(prev, len)]
    ensures s[i] == prev ==> Runs(s[..i + 1]) == closed + [Run(prev, len + 1)]
    ensures s[i] != prev ==> Runs(s[..i + 1]) == closed + [Run(prev, len)] + [Run(s[i], 1)]
  {
    assert s[..i + 1][..i] == s[..i];
    assert (closed + [Run(prev, len)])[..|closed|] == closed;
  }

  /** Closing one more run after a fixed prefix flushes it onto the kept runs. */
  lemma KeptSnoc(lead: seq<string>, rs: seq<Run>, run: Run, minlength: int, maxlength: int)
    ensures Flush(lead + Kept(rs, minlength, maxlength), run, minlength, maxlength)
            == lead + Kept(rs + [run], minlength, maxlength)
  {
    assert (rs + [run])[..|rs|] == rs;
    var k := Kept(rs, minlength, maxlength);
    if minlength <= run.len <= maxlength {
      assert lead + k + [Fill(run.ch, run.len)] == lead + (k + [Fill(run.ch, run.len)]);
    }
  }

  /** `getRepeatingSequences(input, minlength)`: any run length up to the input's length. */
  method GetRepeatingSequencesFrom(input: string, minlength: int) returns (r: Result<seq<string>>)
    ensures |input| < minlength ==> r == Ok([])
    ensures minlength <= |input| && |input| > 0 ==>
              r == Ok(Lead(minlength, |input|) + Kept(Runs(input), minlength, |input|))
  {
    r := GetRepeatingSequences(input, minlength, |input|);
  }

  /** Appending a character pushes it onto the runs. */
  lemma RunsSnoc(p: string, c: char)
    ensures Runs(p + [c]) == Push(Runs(p), c)
  {
    assert (p + [c])[..|p|] == p;
  }

  /** "aaabcc" splits into the runs a×3, b×1, c×2. */
  lemma RunsExample()
    ensures Runs("aaabcc") == [Run('a', 3), Run('b', 1), Run('c', 2)]
  {
    var s0: string := [];
    RunsSnoc(s0, 'a');
    var s1 := s0 + ['a'];
    assert Runs(s1) == [Run('a', 1)];
    RunsSnoc(s1, 'a');
    var s2 := s1 + ['a'];
    assert Runs(s2) == [Run('a', 2)];
    RunsSnoc(s2, 'a');
    var s3 := s2 + ['a'];
    assert Runs(s3) == [Run('a', 3)];
    RunsSnoc(s3, 'b');
    var s4 := s3 + ['b'];
    assert Runs(s4) == [Run('a', 3), Run('b', 1)];
    RunsSnoc(s4, 'c');
    var s5 := s4 + ['c'];
    assert Runs(s5) == [Run('a', 3), Run('b', 1), Run('c', 1)];
    assert Runs(s5)[..2] == [Run('a', 3), Run('b', 1)];
    RunsSnoc(s5, 'c');
    assert s5 + ['c'] == "aaabcc";
  }

  /** "aaabcc" with minimum length 2 keeps the runs "aaa" and "cc". */
  lemma RepeatingSequencesExample()
    ensures Kept(Runs("aaabcc"), 2, 6) == ["aaa", "cc"]
  {
    RunsExample();
    var rs := [Run('a', 3), Run('b', 1), Run('c', 2)];
    assert rs[..2][..1] == [Run('a', 3)] && rs[..2] == [Run('a', 3), Run('b', 1)];
    assert Fill('a', 3) == "aaa";
    assert Kept([Run('a', 3)], 2, 6) == ["aaa"];
    assert Kept(rs[..2], 2, 6) == ["aaa"];
    assert Fill('c', 2) == "cc";
  }

  /** The printed form of each value. */
  function Printed(values: seq<int>): (ps: seq<string>)
    ensures |ps| == |values|
    ensures forall i :: 0 <= i < |values| ==> ps[i] == Text.IntToString(values[i])
  {
    if |values| == 0 then [] else [Text.IntToString(values[0])] + Printed(values[1..])
  }

  /** `fromArray(int[])` and `fromArray(long[])`: the values printed and joined with commas. */
  function FromArray(values: seq<int>): (s: string)
    ensures s == "" <==> |values| == 0
  {
    var s := Text.Join(Printed(values), ',');
    if |values| > 0 then
      JoinStartsWithFirst(Printed(values));
      s
    else s
  }

  lemma JoinStartsWithFirst(parts: seq<string>)
    requires |parts| > 0
    ensures |Text.Join(parts, ',')| >= |parts[0]|
  {
  }

  /** Parse each field as a decimal number in [lo, hi]; the first bad field throws NumberFormatException. */
  function ParseAll(fields: seq<string>, lo: int, hi: int): (r: Result<seq<int>>)
    ensures r.Ok? ==> |r.value| == |fields|
    ensures r.Ok? ==> forall i :: 0 <= i < |fields| ==> Text.ParseInt(fields[i], lo, hi) == Ok(r.value[i])
    ensures r.Err? ==> r.error == NumberFormat
  {
    if |fields| == 0 then Ok([])
    else
      match Text.ParseInt(fields[0], lo, hi)
      case Err(_) => Err(NumberFormat)
      case Ok(v) =>
        match ParseAll(fields[1..], lo, hi)
        case Err(e) => Err(e)
        case Ok(vs) => Ok([v] + vs)
  }


  /** `toIntArray`: split on commas and parse every field as an `int`. */
  function ToIntArray(str: string): (r: Result<seq<int>>)
    ensures r.Ok? ==> forall i :: 0 <= i < |r.value| ==> IntMin <= r.value[i] <= IntMax
  {
    ParseAll(Text.Split(str, ','), IntMin, IntMax)
  }

  /** `toLongArray`: split on commas and parse every field as a `long`. */
  function ToLongArray(str: string): (r: Result<seq<int>>)
    ensures r.Ok? ==> forall i :: 0 <= i < |r.value| ==> LongMin <= r.value[i] <= LongMax
  {
    ParseAll(Text.Split(str, ','), LongMin, LongMax)
  }

  lemma {:induction false} ParseAllPrinted(values: seq<int>, lo: int, hi: int)
    requires forall i :: 0 <= i < |values| ==> lo <= values[i] <= hi
    ensures ParseAll(Printed(values), lo, hi) == Ok(values)
  {
    if |values| > 0 {
      Text.ParseIntToString(values[0], lo, hi);
      ParseAllPrinted(values[1..], lo, hi);
      assert Printed(values)[1..] == Printed(values[1..]);
      assert [values[0]] + values[1..] == values;
    }
  }

  /** A printed number holds no comma and is never empty. */
  lemma PrintedFieldsClean(values: seq<int>)
    ensures forall i :: 0 <= i < |values| ==> ',' !in Printed(values)[i] && Printed(values)[i] != ""
  {
    forall i | 0 <= i < |values|
      ensures ',' !in Printed(values)[i]
    {
      Text.IntToStringChars(values[i]);
    }
  }

  /**
   * Printing a non-empty array of ints and parsing it back gives the array;
   * the empty array prints as "", which does not parse.
   */
  lemma IntArrayRoundTrip(values: seq<int>)
    requires forall i :: 0 <= i < |values| ==> IntMin <= values[i] <= IntMax
    ensures |values| > 0 ==> ToIntArray(FromArray(values)) == Ok(values)
    ensures |values| == 0 ==> ToIntArray(FromArray(values)) == Err(NumberFormat)
  {
    if |values| > 0 {
      PrintedFieldsClean(values);
      Text.SplitOfJoin(Printed(values), ',');
      ParseAllPrinted(values, IntMin, IntMax);
    } else {
      assert Text.Split("", ',') == [""];
    }
  }

  /** `reverse`. */
  function Reverse(s: string): (r: string)
    ensures |r| == |s|
    ensures forall i :: 0 <= i < |s| ==> r[i] == s[|s| - 1 - i]
  {
    if |s| == 0 then "" else Reverse(s[1..]) + [s[0]]
  }

  /** Reversing twice gives the string back. */
  lemma ReverseInvolution(s: string)
    ensures Reverse(Reverse(s)) == s
  {
    assert forall i :: 0 <= i < |s| ==> Reverse(Reverse(s))[i] == s[i];
  }

  /** The characters of s kept by the containment test against `other`, in order. */
  function KeepIf(s: string, other: string, present: bool): (r: string)
    ensures |r| <= |s|
  {
    if |s| == 0 then ""
    else (if (s[0] in other) == present then [s[0]] else "") + KeepIf(s[1..], other, present)
  }

  /** A character is kept as often as it occurs in s when its containment matches `present`, otherwise never. */
  lemma {:induction false} KeepIfCounts(s: string, other: string, present: bool)
    ensures forall c :: multiset(KeepIf(s, other, present))[c] == if (c in other) == present then multiset(s)[c] else 0
    ensures forall c :: c in KeepIf(s, other, present) <==> c in s && (c in other) == present
  {
    if |s| > 0 {
      KeepIfCounts(s[1..], other, present);
      assert s == [s[0]] + s[1..];
    }
  }

  /** Keeping distributes over concatenation: the kept characters stay in the order of s. */
  lemma {:induction false} KeepIfConcat(s: string, t: string, other: string, present: bool)
    ensures KeepIf(s + t, other, present) == KeepIf(s, other, present) + KeepIf(t, other, present)
    decreases |s|
  {
    if |s| > 0 {
      assert (s + t)[1..] == s[1..] + t;
      KeepIfConcat(s[1..], t, other, present);
    } else {
      assert s + t == t;
    }
  }

  /** A single character is kept exactly when its containment in other matches `present`. */
  lemma KeepIfOne(ch: char, other: string, present: bool)
    ensures KeepIf([ch], other, present) == if (ch in other) == present then [ch] else []
  {
    assert [ch][1..] == [];
  }

  /** `union`: the characters of s1 that occur in s2, with their multiplicity in s1. */
  function Union(s1: string, s2: string): (r: string)
    ensures forall c :: c in r <==> c in s1 && c in s2
    ensures forall c :: multiset(r)[c] == if c in s2 then multiset(s1)[c] else 0
  {
    KeepIfCounts(s1, s2, true);
    KeepIf(s1, s2, true)
  }

  /** The union is built character by character in the order of s1: appending to s1 appends to the union. */
  lemma UnionAppend(s1: string, ch: char, s2: string)
    ensures Union(s1 + [ch], s2) == Union(s1, s2) + (if ch in s2 then [ch] else [])
  {
    KeepIfConcat(s1, [ch], s2, true);
    KeepIfOne(ch, s2, true);
  }

  /**
   * `diff(s1, s2, bothways)`: the characters of s1 absent from s2, followed,
   * when bothways, by the characters of s2 absent from s1.
   */
  function Diff(s1: string, s2: string, bothways: bool): (r: string)
    ensures forall c :: c in r <==> (c in s1 && c !in s2) || (bothways && c in s2 && c !in s1)
    ensures forall c :: (multiset(r)[c]
      == (if c !in s2 then multiset(s1)[c] else 0) + (if bothways && c !in s1 then multiset(s2)[c] else 0))
  {
    KeepIfCounts(s1, s2, false);
    KeepIfCounts(s2, s1, false);
    KeepIf(s1, s2, false) + (if bothways then KeepIf(s2, s1, false) else "")
  }

  /** The one-way difference is built in the order of s1: appending to s1 appends to the difference. */
  lemma DiffAppend(s1: string, ch: char, s2: string)
    ensures Diff(s1 + [ch], s2, false) == Diff(s1, s2, false) + (if ch in s2 then [] else [ch])
  {
    KeepIfConcat(s1, [ch], s2, false);
    KeepIfOne(ch, s2, false);
  }

  /** The two-way difference is the difference of s1 from s2 followed by that of s2 from s1. */
  lemma DiffBothways(s1: string, s2: string)
    ensures Diff(s1, s2, true) == Diff(s1, s2, false) + Diff(s2, s1, false)
  {
  }

  /** Union and one-way difference split s1: every character lands in exactly one of them. */
  lemma UnionDiffSplit(s1: string, s2: string)
    ensures multiset(Union(s1, s2)) + multiset(Diff(s1, s2, false)) == multiset(s1)
  {
    assert Diff(s1, s2, false) == KeepIf(s1, s2, false);
    KeepIfCounts(s1, s2, true);
    KeepIfCounts(s1, s2, false);
  }

  /** `containsAll`: stop at the first character of check that input lacks. */
  method ContainsAll(input: string, check: string) returns (b: bool)
    ensures b <==> forall c :: c in check ==> c in input
  {
    var i := 0;
    while i < |check|
      invariant 0 <= i <= |check|
      invariant forall j :: 0 <= j < i ==> check[j] in input
    {
      if check[i] !in input {
        return false;
      }
      i := i + 1;
    }
    return true;
  }

  /** `count`: the number of positions holding chr. */
  method Count(input: string, chr: char) returns (n: nat)
    ensures n == multiset(input)[chr]
  {
    n := 0;
    var i := 0;
    while i < |input|
      invariant 0 <= i <= |input|
      invariant n == multiset(input[..i])[chr]
    {
      assert input[..i + 1] == input[..i] + [input[i]];
      n := n + if input[i] == chr then 1 else 0;
      i := i + 1;
    }
    assert input[..i] == input;
  }

  predicate Sorted(s: string)
  {
    forall i, j :: 0 <= i < j < |s| ==> s[i] <= s[j]
  }

  /** Place c before the first character not smaller than it. */
  function Insert(c: char, s: string): string
  {
    if |s| == 0 || c <= s[0] then [c] + s else [s[0]] + Insert(c, s[1..])
  }

  /** Inserting into an ascending string keeps it ascending and adds exactly c. */
  lemma {:induction false} InsertSorts(c: char, s: string)
    requires Sorted(s)
    ensures Sorted(Insert(c, s))
    ensures multiset(Insert(c, s)) == multiset(s) + multiset{c}
  {
    if |s| == 0 || c <= s[0] {
      assert forall y :: y in s ==> s[0] <= y;
      SortedCons(c, s);
    } else {
      assert s == [s[0]] + s[1..];
      SortedTail(s);
      InsertSorts(c, s[1..]);
      var rest := Insert(c, s[1..]);
      forall y | y in rest
        ensures s[0] <= y
      {
        assert y in multiset(rest);
        if y != c {
          assert y in multiset(s[1..]);
        }
      }
      SortedCons(s[0], rest);
      assert Insert(c, s) == [s[0]] + rest;
      assert multiset([s[0]] + rest) == multiset{s[0]} + multiset(rest);
    }
  }

  lemma SortedTail(s: string)
    requires Sorted(s) && |s| > 0
    ensures Sorted(s[1..])
    ensures forall y :: y in s[1..] ==> s[0] <= y
    ensures forall y :: y in s ==> s[0] <= y
  {
  }

  /** A character no larger than any of an ascending string's can go in front of it. */
  lemma SortedCons(x: char, s: string)
    requires Sorted(s)
    requires forall y :: y in s ==> x <= y
    ensures Sorted([x] + s)
  {
    var t := [x] + s;
    forall i, j | 0 <= i < j < |t|
      ensures t[i] <= t[j]
    {
      assert t[j] == s[j - 1] && s[j - 1] in s;
    }
  }

  /** `sort`: insertion of each character in turn (the model's stand-in for `Arrays.sort`). */
  function Sort(s: string): string
  {
    if |s| == 0 then "" else Insert(s[0], Sort(s[1..]))
  }

  /** The sorted string is ascending and holds exactly the input's characters. */
  lemma {:induction false} SortSorts(s: string)
    ensures Sorted(Sort(s))
    ensures multiset(Sort(s)) == multiset(s)
    ensures |Sort(s)| == |s|
  {
    if |s| > 0 {
      assert s == [s[0]] + s[1..];
      SortSorts(s[1..]);
      InsertSorts(s[0], Sort(s[1..]));
    }
    assert |Sort(s)| == |multiset(Sort(s))|;
  }

  /** Two non-empty ascending strings with the same characters start alike. */
  lemma SortedHeads(a: string, b: string)
    requires Sorted(a) && Sorted(b) && multiset(a) == multiset(b) && |a| > 0
    ensures |b| == |a| && a[0] == b[0]
  {
    assert |b| == |multiset(b)| == |a|;
    SortedTail(a);
    SortedTail(b);
    assert a[0] in multiset(a) && b[0] in multiset(b);
    assert a[0] in b && b[0] in a;
  }

  /** Two ascending strings with the same characters are the same string. */
  lemma {:induction false} SortedUnique(a: string, b: string)
    requires Sorted(a) && Sorted(b) && multiset(a) == multiset(b)
    ensures a == b
    decreases |a|
  {
    if |a| > 0 {
      SortedHeads(a, b);
      SortedRest(a);
      SortedRest(b);
      SortedUnique(a[1..], b[1..]);
      assert a == [a[0]] + a[1..] && b == [b[0]] + b[1..];
    }
  }

  /** Dropping the head of an ascending string leaves an ascending string without that one character. */
  lemma SortedRest(s: string)
    requires Sorted(s) && |s| > 0
    ensures Sorted(s[1..])
    ensures multiset(s[1..]) == multiset(s) - multiset{s[0]}
  {
    assert s == [s[0]] + s[1..];
  }

  /** `isAnagram`: equal lengths and equal sorted forms. */
  function IsAnagram(s1: string, s2: string): bool
  {
    if |s1| != |s2| then false else Sort(s1) == Sort(s2)
  }

  /** Two strings are anagrams exactly when they hold the same characters the same number of times. */
  lemma AnagramMeansSameCharacters(s1: string, s2: string)
    ensures IsAnagram(s1, s2) <==> multiset(s1) == multiset(s2)
  {
    SortSorts(s1);
    SortSorts(s2);
    if multiset(s1) == multiset(s2) {
      assert |s1| == |multiset(s1)| == |multiset(s2)| == |s2|;
      SortedUnique(Sort(s1), Sort(s2));
    }
  }

  /** `padLeft(str, len, padchar)`: padchar in front up to length len; a longer str is left alone. */
  function PadLeft(str: string, len: int, padchar: char): (r: string)
    ensures |r| == Max(len, |str|)
    ensures r[|r| - |str|..] == str
    ensures forall i :: 0 <= i < |r| - |str| ==> r[i] == padchar
  {
    FillIsConstant(padchar, Max(0, len - |str|));
    RepeatChar(padchar, Max(0, len - |str|)).value + str
  }

  /** `padLeft(str, len)`: padded with spaces. */
  function PadLeftSpaces(str: string, len: int): (r: string)
    ensures |r| == Max(len, |str|)
    ensures r[|r| - |str|..] == str
    ensures forall i :: 0 <= i < |r| - |str| ==> r[i] == ' '
  {
    PadLeft(str, len, ' ')
  }
}
