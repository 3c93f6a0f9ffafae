/**
  The few Python `str` operations the pipeline relies on, written as recursive
  functions with Python's semantics: `sub in s`, `s.startswith(p)`,
  `s.endswith(p)`, `s.replace(pat, rep)` (non-overlapping, left to right),
  `s.split(sep)` and `sep.join(parts)`, plus `str(n)` and `int(s)` for the
  decimal numbers written into and parsed out of file names.
*/
module PyStr {
  import opened Wrappers

  // ---------------------------------------------------------------------------
  // Containment and affixes
  // ---------------------------------------------------------------------------

  /** `sub` occurs in `s` starting at position `i`. */
  predicate OccursAt(s: string, sub: string, i: nat)
  {
    i + |sub| <= |s| && s[i..i + |sub|] == sub
  }

  /** Python's `sub in s`; the empty string is in every string. */
  predicate Contains(s: string, sub: string)
    decreases |s|
  {
    sub <= s || (|s| > 0 && Contains(s[1..], sub))
  }

  predicate StartsWith(s: string, prefix: string)
  {
    prefix <= s
  }

  predicate EndsWith(s: string, suffix: string)
  {
    |suffix| <= |s| && s[|s| - |suffix|..] == suffix
  }

  /** An occurrence anywhere makes `sub in s` true. */
  lemma {:induction false} OccursImpliesContains(s: string, sub: string, i: nat)
    requires OccursAt(s, sub, i)
    ensures Contains(s, sub)
    decreases i
  {
    if i == 0 {
      assert s[..|sub|] == sub;
    } else {
      assert s[1..][i - 1..i - 1 + |sub|] == s[i..i + |sub|];
      OccursImpliesContains(s[1..], sub, i - 1);
    }
  }

  /** `sub in s` yields the position of an occurrence. */
  lemma {:induction false} ContainsWitness(s: string, sub: string) returns (i: nat)
    requires Contains(s, sub)
    ensures OccursAt(s, sub, i)
    decreases |s|
  {
    if sub <= s {
      i := 0;
      assert s[..|sub|] == sub;
    } else {
      var j := ContainsWitness(s[1..], sub);
      i := j + 1;
      assert s[1..][j..j + |sub|] == s[j + 1..j + 1 + |sub|];
    }
  }

  /** `sub in s` holds exactly when `sub` occurs at some position of `s`. */
  lemma ContainsIffOccurs(s: string, sub: string)
    ensures Contains(s, sub) <==> exists i: nat :: OccursAt(s, sub, i)
  {
    if Contains(s, sub) {
      var i := ContainsWitness(s, sub);
    }
    forall i: nat | OccursAt(s, sub, i) ensures Contains(s, sub) {
      OccursImpliesContains(s, sub, i);
    }
  }

  /** Containment is transitive: a string holding `mid` holds everything `mid` holds. */
  lemma ContainsTransitive(s: string, mid: string, sub: string)
    requires Contains(s, mid) && Contains(mid, sub)
    ensures Contains(s, sub)
  {
    var i := ContainsWitness(s, mid);
    var j := ContainsWitness(mid, sub);
    assert mid == s[i..i + |mid|];
    assert sub == mid[j..j + |sub|];
    forall k | 0 <= k < |sub| ensures s[i + j + k] == sub[k] {
      assert sub[k] == mid[j + k];
    }
    assert s[i + j..i + j + |sub|] == sub;
    OccursImpliesContains(s, sub, i + j);
  }

  // ---------------------------------------------------------------------------
  // str.replace
  // ---------------------------------------------------------------------------

  /** Python's `s.replace(pat, rep)` for a non-empty `pat`: occurrences are found
      left to right and never overlap. */
  function Replace(s: string, pat: string, rep: string): string
    requires |pat| > 0
    decreases |s|
  {
    if |s| < |pat| then s
    else if pat <= s then rep + Replace(s[|pat|..], pat, rep)
    else [s[0]] + Replace(s[1..], pat, rep)
  }

  /** The number of occurrences `Replace` and `Split` act on (Python's `s.count(pat)`). */
  function Count(s: string, pat: string): nat
    requires |pat| > 0
    decreases |s|
  {
    if |s| < |pat| then 0
    else if pat <= s then 1 + Count(s[|pat|..], pat)
    else Count(s[1..], pat)
  }

  /** Every replaced occurrence changes the length by `|rep| - |pat|`. */
  lemma {:induction false} ReplaceLength(s: string, pat: string, rep: string)
    requires |pat| > 0
    ensures |Replace(s, pat, rep)| == |s| + Count(s, pat) * (|rep| - |pat|)
    decreases |s|
  {
    if |s| < |pat| {
    } else if pat <= s {
      var tail := s[|pat|..];
      ReplaceLength(tail, pat, rep);
      var c, d := Count(tail, pat), |rep| - |pat|;
      assert Replace(s, pat, rep) == rep + Replace(tail, pat, rep);
      assert Count(s, pat) == 1 + c;
      MulStep(c, d);
    } else {
      ReplaceLength(s[1..], pat, rep);
    }
  }

  lemma MulStep(c: nat, d: int)
    ensures (1 + c) * d == d + c * d
  {
  }

  /** A replacement never longer than the pattern never lengthens the text. */
  lemma ReplaceNeverLengthens(s: string, pat: string, rep: string)
    requires |pat| > 0 && |rep| <= |pat|
    ensures |Replace(s, pat, rep)| <= |s|
  {
    ReplaceLength(s, pat, rep);
    assert Count(s, pat) * (|rep| - |pat|) <= 0 by {
      assert Count(s, pat) >= 0 && |rep| - |pat| <= 0;
    }
  }

  /** Replacing one character by another works character by character: the
      length is kept and every `a` becomes `b`. */
  lemma {:induction false} ReplaceCharByChar(s: string, a: char, b: char)
    ensures |Replace(s, [a], [b])| == |s|
    ensures forall i :: 0 <= i < |s| ==> Replace(s, [a], [b])[i] == (if s[i] == a then b else s[i])
    decreases |s|
  {
    if |s| > 0 {
      ReplaceCharByChar(s[1..], a, b);
      var head := if s[0] == a then [b] else [s[0]];
      assert Replace(s, [a], [b]) == head + Replace(s[1..], [a], [b]);
    }
  }

  /** After replacing character `a` by a different character, no `a` is left. */
  lemma ReplaceCharRemovesIt(s: string, a: char, b: char)
    requires a != b
    ensures |Replace(s, [a], [b])| == |s|
    ensures forall i :: 0 <= i < |s| ==> Replace(s, [a], [b])[i] != a
  {
    ReplaceCharByChar(s, a, b);
  }

  /** With no occurrence of `pat`, `replace` is the identity: the `if pat in s`
      guards in front of the source's replacements change nothing. */
  lemma {:induction false} ReplaceWithoutOccurrence(s: string, pat: string, rep: string)
    requires |pat| > 0 && !Contains(s, pat)
    ensures Replace(s, pat, rep) == s
    decreases |s|
  {
    if |s| >= |pat| {
      assert !(pat <= s);
      ReplaceWithoutOccurrence(s[1..], pat, rep);
      assert s == [s[0]] + s[1..];
    }
  }

  /** Splitting on an absent separator gives the whole string as the one field. */
  lemma {:induction false} SplitWithoutOccurrence(s: string, sep: string)
    requires |sep| > 0 && !Contains(s, sep)
    ensures Split(s, sep) == [s]
    decreases |s|
  {
    if |s| >= |sep| {
      assert !(sep <= s);
      SplitWithoutOccurrence(s[1..], sep);
      assert s == [s[0]] + s[1..];
    }
  }

  /** A single-character pattern distributes over concatenation. */
  lemma {:induction false} ReplaceCharConcat(a: string, b: string, c: char, rep: string)
    ensures Replace(a + b, [c], rep) == Replace(a, [c], rep) + Replace(b, [c], rep)
    decreases |a|
  {
    if |a| > 0 {
      assert (a + b)[1..] == a[1..] + b;
      ReplaceCharConcat(a[1..], b, c, rep);
    } else {
      assert a + b == b;
    }
  }

  // ---------------------------------------------------------------------------
  // str.split and str.join
  // ---------------------------------------------------------------------------

  /** Python's `s.split(sep)` for a non-empty `sep`: always at least one field. */
  function Split(s: string, sep: string): (fields: seq<string>)
    requires |sep| > 0
    ensures |fields| > 0
    decreases |s|
  {
    if |s| < |sep| then [s]
    else if sep <= s then [""] + Split(s[|sep|..], sep)
    else
      var rest := Split(s[1..], sep);
      [[s[0]] + rest[0]] + rest[1..]
  }

  /** Python's `glue.join(parts)`. */
  function Join(glue: string, parts: seq<string>): string
    decreases |parts|
  {
    if |parts| == 0 then ""
    else if |parts| == 1 then parts[0]
    else parts[0] + glue + Join(glue, parts[1..])
  }

  /** Python's `s.split(sep)[0]`: the text before the first occurrence of `sep`. */
  function FirstField(s: string, sep: string): string
    requires |sep| > 0
  {
    Split(s, sep)[0]
  }

  lemma JoinConsHead(glue: string, c: string, x: string, xs: seq<string>)
    ensures Join(glue, [c + x] + xs) == c + Join(glue, [x] + xs)
  {
    if |xs| > 0 {
      assert ([c + x] + xs)[1..] == xs;
      assert ([x] + xs)[1..] == xs;
    }
  }

  /** Splitting on `sep` and joining with `glue` is replacing `sep` by `glue`. */
  lemma {:induction false} JoinSplitIsReplace(s: string, sep: string, glue: string)
    requires |sep| > 0
    ensures Join(glue, Split(s, sep)) == Replace(s, sep, glue)
    decreases |s|
  {
    if |s| < |sep| {
    } else if sep <= s {
      var rest := Split(s[|sep|..], sep);
      JoinSplitIsReplace(s[|sep|..], sep, glue);
      assert Split(s, sep) == [""] + rest;
      assert ([""] + rest)[1..] == rest;
      assert Join(glue, [""] + rest) == "" + glue + Join(glue, rest);
      assert Replace(s, sep, glue) == glue + Replace(s[|sep|..], sep, glue);
    } else {
      var rest := Split(s[1..], sep);
      JoinSplitIsReplace(s[1..], sep, glue);
      assert Split(s, sep) == [[s[0]] + rest[0]] + rest[1..];
      JoinConsHead(glue, [s[0]], rest[0], rest[1..]);
      assert [rest[0]] + rest[1..] == rest;
      assert Replace(s, sep, glue) == [s[0]] + Replace(s[1..], sep, glue);
    }
  }

  /** Replacing a pattern by itself changes nothing. */
  lemma {:induction false} ReplaceBySelf(s: string, pat: string)
    requires |pat| > 0
    ensures Replace(s, pat, pat) == s
    decreases |s|
  {
    if |s| >= |pat| {
      if pat <= s {
        ReplaceBySelf(s[|pat|..], pat);
        assert s == pat + s[|pat|..];
      } else {
        ReplaceBySelf(s[1..], pat);
        assert s == [s[0]] + s[1..];
      }
    }
  }

  /** Joining the fields with the separator gives back the text. */
  lemma SplitJoinRoundTrip(s: string, sep: string)
    requires |sep| > 0
    ensures Join(sep, Split(s, sep)) == s
  {
    JoinSplitIsReplace(s, sep, sep);
    ReplaceBySelf(s, sep);
  }

  /** There is one more field than there are separators. */
  lemma {:induction false} SplitLength(s: string, sep: string)
    requires |sep| > 0
    ensures |Split(s, sep)| == Count(s, sep) + 1
    decreases |s|
  {
    if |s| < |sep| {
    } else if sep <= s {
      SplitLength(s[|sep|..], sep);
    } else {
      SplitLength(s[1..], sep);
    }
  }

  /** No field contains the separator. */
  lemma {:induction false} SplitFieldsFree(s: string, sep: string)
    requires |sep| > 0
    ensures forall k :: 0 <= k < |Split(s, sep)| ==> !Contains(Split(s, sep)[k], sep)
    decreases |s|
  {
    var fields := Split(s, sep);
    if |s| < |sep| {
      ShortNotContains(s, sep);
    } else if sep <= s {
      SplitFieldsFree(s[|sep|..], sep);
      assert !Contains("", sep);
    } else {
      var rest := Split(s[1..], sep);
      SplitFieldsFree(s[1..], sep);
      var head := [s[0]] + rest[0];
      SplitHeadIsPrefix(s[1..], sep);
      assert head <= s;
      assert head[1..] == rest[0];
      if sep <= head { PrefixTrans(sep, head, s); }
      forall k | 0 <= k < |fields| ensures !Contains(fields[k], sep) {
        if k > 0 { assert fields[k] == rest[k]; }
      }
    }
  }

  lemma PrefixTrans(a: string, b: string, c: string)
    requires a <= b && b <= c
    ensures a <= c
  {
    assert c[..|a|] == b[..|a|];
  }

  lemma {:induction false} ShortNotContains(s: string, sub: string)
    requires |s| < |sub|
    ensures !Contains(s, sub)
    decreases |s|
  {
    if |s| > 0 { ShortNotContains(s[1..], sub); }
  }

  /** The first field is a prefix of the text. */
  lemma {:induction false} SplitHeadIsPrefix(s: string, sep: string)
    requires |sep| > 0
    ensures Split(s, sep)[0] <= s
    decreases |s|
  {
    if |s| >= |sep| && !(sep <= s) {
      SplitHeadIsPrefix(s[1..], sep);
    }
  }

  /** `s.split(sep)[0]` is the longest prefix without `sep`: it is a prefix of
      `s`, holds no `sep`, and is either all of `s` or followed by `sep`. */
  lemma {:induction false} FirstFieldSpec(s: string, sep: string)
    requires |sep| > 0
    ensures FirstField(s, sep) <= s
    ensures !Contains(FirstField(s, sep), sep)
    ensures |FirstField(s, sep)| == |s| || sep <= s[|FirstField(s, sep)|..]
    decreases |s|
  {
    SplitHeadIsPrefix(s, sep);
    SplitFieldsFree(s, sep);
    if |s| >= |sep| && !(sep <= s) {
      FirstFieldSpec(s[1..], sep);
      var f := FirstField(s[1..], sep);
      assert FirstField(s, sep) == [s[0]] + f;
      assert s[1..][|f|..] == s[|f| + 1..];
    }
  }

  /** A string lacking one of `sub`'s characters does not contain `sub`. */
  lemma {:induction false} MissingCharNotContains(s: string, sub: string, k: nat)
    requires k < |sub|
    requires forall i :: 0 <= i < |s| ==> s[i] != sub[k]
    ensures !Contains(s, sub)
    decreases |s|
  {
    if k < |s| {
      assert s[k] != sub[k];
    }
    if |s| > 0 {
      MissingCharNotContains(s[1..], sub, k);
    }
  }

  /** Appending text that lacks the last character of `sub` cannot create an
      occurrence of `sub`. */
  lemma {:induction false} ContainsAcrossFree(a: string, t: string, sub: string)
    requires |sub| > 0 && !Contains(a, sub)
    requires forall i :: 0 <= i < |t| ==> t[i] != sub[|sub| - 1]
    ensures !Contains(a + t, sub)
    decreases |a|
  {
    if |a| == 0 {
      assert a + t == t;
      MissingCharNotContains(t, sub, |sub| - 1);
    } else {
      if |a| >= |sub| {
        assert (a + t)[..|sub|] == a[..|sub|];
      } else if |sub| <= |a + t| {
        assert (a + t)[|sub| - 1] == t[|sub| - 1 - |a|];
      }
      assert (a + t)[1..] == a[1..] + t;
      ContainsAcrossFree(a[1..], t, sub);
    }
  }

  /** Once `a` holds `sep`, what follows `a` does not change the first field. */
  lemma {:induction false} FirstFieldExtend(a: string, b: string, sep: string)
    requires |sep| > 0 && Contains(a, sep)
    ensures FirstField(a + b, sep) == FirstField(a, sep)
    decreases |a|
  {
    ContainsLength(a, sep);
    var s := a + b;
    assert s[..|sep|] == a[..|sep|];
    if !(sep <= a) {
      assert s[1..] == a[1..] + b;
      FirstFieldExtend(a[1..], b, sep);
    }
  }

  lemma ContainsLength(s: string, sub: string)
    ensures Contains(s, sub) ==> |sub| <= |s|
  {
    if |s| < |sub| {
      ShortNotContains(s, sub);
    }
  }

  /** When no `sep` starts inside `a`, the first field of `a + sep + b` is `a`. */
  lemma {:induction false} FirstFieldOfConcat(a: string, sep: string, b: string)
    requires |sep| > 0
    requires !Contains(a + sep[..|sep| - 1], sep)
    ensures FirstField(a + sep + b, sep) == a
    decreases |a|
  {
    var s := a + sep + b;
    if |a| == 0 {
      assert s == sep + b;
      assert sep <= s;
    } else {
      assert (a + sep[..|sep| - 1])[..|sep|] == s[..|sep|] by {
        assert |a + sep[..|sep| - 1]| >= |sep|;
      }
      assert !(sep <= a + sep[..|sep| - 1]);
      assert !(sep <= s);
      assert s[1..] == a[1..] + sep + b;
      assert a + sep[..|sep| - 1] == [a[0]] + (a[1..] + sep[..|sep| - 1]);
      FirstFieldOfConcat(a[1..], sep, b);
    }
  }

  /** A single-character separator absent from `a` leaves `a` as the only field. */
  lemma {:induction false} SplitCharAbsent(a: string, c: char)
    requires forall i :: 0 <= i < |a| ==> a[i] != c
    ensures Split(a, [c]) == [a]
    decreases |a|
  {
    if |a| > 0 {
      SplitCharAbsent(a[1..], c);
      assert [a[0]] + a[1..] == a;
    }
  }

  /** Splitting `a + c + b` on `c`, with `c` absent from `a`, yields `a` then the fields of `b`. */
  lemma {:induction false} SplitCharConcat(a: string, c: char, b: string)
    requires forall i :: 0 <= i < |a| ==> a[i] != c
    ensures Split(a + [c] + b, [c]) == [a] + Split(b, [c])
    decreases |a|
  {
    var s := a + [c] + b;
    if |a| == 0 {
      assert s == [c] + b;
      assert s[1..] == b;
    } else {
      assert s[0] == a[0] && s[0] != c;
      assert !([c] <= s);
      assert s[1..] == a[1..] + [c] + b;
      SplitCharConcat(a[1..], c, b);
      assert [a[0]] + a[1..] == a;
    }
  }

  // ---------------------------------------------------------------------------
  // str(n) and int(s)
  // ---------------------------------------------------------------------------

  predicate IsDigit(c: char)
  {
    '0' <= c <= '9'
  }

  predicate AllDigits(s: string)
  {
    forall i :: 0 <= i < |s| ==> IsDigit(s[i])
  }

  function DigitChar(d: nat): (c: char)
    requires d < 10
    ensures IsDigit(c) && (c as int) - ('0' as int) == d
  {
    (('0' as int) + d) as char
  }

  /** Python's `str(n)` for a natural number: its decimal digits, no leading zero. */
  function NatToString(n: nat): (r: string)
    ensures |r| > 0 && AllDigits(r)
    decreases n
  {
    if n < 10 then [DigitChar(n)] else NatToString(n / 10) + [DigitChar(n % 10)]
  }

  function DigitsValue(s: string): nat
    requires AllDigits(s)
    decreases |s|
  {
    if |s| == 0 then 0
    else DigitsValue(s[..|s| - 1]) * 10 + ((s[|s| - 1] as int) - ('0' as int))
  }

  /** `int(s)` restricted to plain ASCII digit strings; anything else is the
      `ValueError` path, i.e. `None`. */
  function ParseNat(s: string): (r: Option<nat>)
    ensures r.Some? <==> |s| > 0 && AllDigits(s)
  {
    if |s| > 0 && AllDigits(s) then Some(DigitsValue(s)) else None
  }

  /** `int(str(n)) == n`. */
  lemma {:induction false} ParseNatToString(n: nat)
    ensures ParseNat(NatToString(n)) == Some(n)
    decreases n
  {
    var r := NatToString(n);
    if n < 10 {
      assert r[..|r| - 1] == [];
      assert DigitsValue(r) == DigitsValue([]) * 10 + n;
    } else {
      ParseNatToString(n / 10);
      assert r[..|r| - 1] == NatToString(n / 10);
      assert DigitsValue(r) == DigitsValue(NatToString(n / 10)) * 10 + n % 10;
    }
  }

  /** Different numbers are written differently. */
  lemma NatToStringInjective(m: nat, n: nat)
    requires NatToString(m) == NatToString(n)
    ensures m == n
  {
    ParseNatToString(m);
    ParseNatToString(n);
  }
}
