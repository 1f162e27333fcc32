/**
 * The pattern shorthand of `RegexMatcher.toRegex`: "#Ds" stands for a
 * number with optional white space around it and "#D" for a bare number.
 * Only the textual rewrite is modelled; compiling and matching the
 * resulting pattern is `java.util.regex`'s business.
 */
module RegexMatcher {

  /** The group "#D" becomes: an optional minus sign and one or more digits. */
  const Number: string := "(-?\\d+)"

  /** The group "#Ds" becomes: a number with optional white space on both sides. */
  const SpacedNumber: string := "\\s*(-?\\d+)\\s*"

  /**
   * `String.replaceAll` with a pattern free of regex metacharacters and a
   * replacement free of `$` and `\`-escapes (after Java's own unescaping):
   * scan from the left, replace each occurrence, continue after it.
   */
  function ReplaceAll(s: string, pat: string, rep: string): (r: string)
    requires |pat| > 0
    ensures forall ch :: ch in r ==> ch in s || ch in rep
    ensures |rep| > 0 && |s| > 0 ==> |r| > 0 && (r[0] == s[0] || r[0] == rep[0])
    decreases |s|
  {
    if |s| < |pat| then s
    else if s[..|pat|] == pat then rep + ReplaceAll(s[|pat|..], pat, rep)
    else [s[0]] + ReplaceAll(s[1..], pat, rep)
  }

  /** The pattern occurs in s at position i. */
  predicate At(s: string, i: nat, pat: string)
  {
    i + |pat| <= |s| && s[i..i + |pat|] == pat
  }

  /** The pattern occurs nowhere in s. */
  ghost predicate Absent(s: string, pat: string)
  {
    forall i: nat :: !At(s, i, pat)
  }

  /** No '#' is directly followed by 'D'. */
  predicate NoShorthand(s: string)
  {
    forall i :: 0 <= i < |s| - 1 ==> !(s[i] == '#' && s[i + 1] == 'D')
  }

  /** Replacing a pattern that never occurs changes nothing. */
  lemma {:induction false} ReplaceAbsent(s: string, pat: string, rep: string)
    requires |pat| > 0 && Absent(s, pat)
    ensures ReplaceAll(s, pat, rep) == s
    decreases |s|
  {
    if |s| >= |pat| {
      assert !At(s, 0, pat);
      forall i: nat
        ensures !At(s[1..], i, pat)
      {
        assert !At(s, i + 1, pat);
        if i + |pat| <= |s[1..]| {
          assert s[1..][i..i + |pat|] == s[i + 1..i + 1 + |pat|];
        }
      }
      ReplaceAbsent(s[1..], pat, rep);
      assert [s[0]] + s[1..] == s;
    }
  }

  /** A string without the "#D" shorthand holds no pattern that starts with it. */
  lemma ShorthandFreeIsAbsent(s: string, pat: string)
    requires |pat| >= 2 && pat[0] == '#' && pat[1] == 'D'
    requires NoShorthand(s)
    ensures Absent(s, pat)
  {
    forall i: nat
      ensures !At(s, i, pat)
    {
      if i + |pat| <= |s| {
        assert s[i..i + |pat|][0] == s[i] && s[i..i + |pat|][1] == s[i + 1];
      }
    }
  }

  /** Two shorthand-free strings stay so when joined, unless the join itself spells "#D". */
  lemma JoinShorthandFree(a: string, b: string)
    requires NoShorthand(a) && NoShorthand(b)
    requires |a| == 0 || |b| == 0 || !(a[|a| - 1] == '#' && b[0] == 'D')
    ensures NoShorthand(a + b)
  {
    var ab := a + b;
    forall i | 0 <= i < |ab| - 1
      ensures !(ab[i] == '#' && ab[i + 1] == 'D')
    {
      if i + 1 < |a| {
        assert ab[i] == a[i] && ab[i + 1] == a[i + 1];
      } else if i + 1 == |a| {
        assert ab[i] == a[|a| - 1] && ab[i + 1] == b[0];
      } else {
        assert ab[i] == b[i - |a|] && ab[i + 1] == b[i - |a| + 1];
      }
    }
  }

  /** A string without '#' holds no shorthand. */
  lemma HashFree(s: string)
    requires '#' !in s
    ensures NoShorthand(s)
  {
    forall i | 0 <= i < |s| - 1
      ensures s[i] != '#'
    {
      assert s[i] in s;
    }
  }

  /**
   * Replacing every "#D" by a text that has no '#' and does not start with
   * 'D' leaves no "#D" behind: an unmatched '#' is followed either by a
   * character other than 'D' or by the start of a replacement.
   */
  lemma {:induction false} ReplaceClears(s: string, rep: string)
    requires |rep| > 0 && rep[0] != 'D' && '#' !in rep
    ensures NoShorthand(ReplaceAll(s, "#D", rep))
    decreases |s|
  {
    var r := ReplaceAll(s, "#D", rep);
    if |s| < 2 {
    } else if s[..2] == "#D" {
      ReplaceClears(s[2..], rep);
      HashFree(rep);
      assert rep[|rep| - 1] in rep;
      JoinShorthandFree(rep, ReplaceAll(s[2..], "#D", rep));
    } else {
      var tail := ReplaceAll(s[1..], "#D", rep);
      ReplaceClears(s[1..], rep);
      JoinShorthandFree([s[0]], tail);
    }
  }

  /** `toRegex`: first every "#Ds", then every remaining "#D". */
  function ToRegex(regex: string): (r: string)
    ensures NoShorthand(r)
  {
    ReplaceClears(ReplaceAll(regex, "#Ds", SpacedNumber), Number);
    ReplaceAll(ReplaceAll(regex, "#Ds", SpacedNumber), "#D", Number)
  }

  /** A pattern is left as it is exactly when it uses no shorthand. */
  lemma ToRegexUnchanged(regex: string)
    ensures ToRegex(regex) == regex <==> NoShorthand(regex)
  {
    if NoShorthand(regex) {
      ShorthandFreeIsAbsent(regex, "#Ds");
      ReplaceAbsent(regex, "#Ds", SpacedNumber);
      ShorthandFreeIsAbsent(regex, "#D");
      ReplaceAbsent(regex, "#D", Number);
    }
  }

  /** Rewriting twice, as the static `match` followed by the constructor does, is rewriting once. */
  lemma ToRegexIdempotent(regex: string)
    ensures ToRegex(ToRegex(regex)) == ToRegex(regex)
  {
    ToRegexUnchanged(ToRegex(regex));
  }

  /** "#Ds" is rewritten as a whole, before "#D" could claim its first two characters. */
  lemma SpacedShorthandFirst()
    ensures ToRegex("#Ds") == SpacedNumber
  {
    var once := ReplaceAll("#Ds", "#Ds", SpacedNumber);
    assert "#Ds"[..3] == "#Ds" && "#Ds"[3..] == "";
    assert once == SpacedNumber;
    HashFree(SpacedNumber);
    ShorthandFreeIsAbsent(SpacedNumber, "#D");
    ReplaceAbsent(SpacedNumber, "#D", Number);
  }
}
