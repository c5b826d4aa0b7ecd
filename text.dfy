/**
 * The string operations the protocol-name resolution and the name check of
 * the record store rely on: Java's String.trim and Ruby's String#strip (which
 * remove different sets of characters at both ends) and lower-casing over
 * ASCII letters.
 */
module Text {

  /** Which characters a stripping operation removes at either end. */
  datatype SpaceRule =
    | JavaTrim   // java.lang.String.trim: every character up to U+0020
    | RubyStrip  // Ruby's String#strip: NUL, \t, \n, \v, \f, \r and space

  predicate IsSpace(rule: SpaceRule, c: char) {
    match rule
    case JavaTrim => c <= ' '
    case RubyStrip => c == ' ' || c == '\0' || ('\t' <= c <= '\r')
  }

  predicate AllSpace(rule: SpaceRule, s: string) {
    forall i :: 0 <= i < |s| ==> IsSpace(rule, s[i])
  }

  /** Neither end of `s` is a space of `rule`: what a stripped string looks like. */
  predicate Stripped(rule: SpaceRule, s: string) {
    s == [] || (!IsSpace(rule, s[0]) && !IsSpace(rule, s[|s| - 1]))
  }

  /** `s` without its leading spaces. */
  function DropLeading(rule: SpaceRule, s: string): (r: string)
    ensures |r| <= |s| && r == s[|s| - |r|..]
    ensures AllSpace(rule, s[..|s| - |r|])
    ensures r == [] || !IsSpace(rule, r[0])
  {
    if s != [] && IsSpace(rule, s[0]) then DropLeading(rule, s[1..]) else s
  }

  /** `s` without its trailing spaces. */
  function DropTrailing(rule: SpaceRule, s: string): (r: string)
    ensures |r| <= |s| && r == s[..|r|]
    ensures AllSpace(rule, s[|r|..])
    ensures r == [] || !IsSpace(rule, r[|r| - 1])
  {
    if s != [] && IsSpace(rule, s[|s| - 1]) then DropTrailing(rule, s[..|s| - 1]) else s
  }

  /** `s` without leading and trailing spaces, as String.trim and String#strip compute it. */
  function Strip(rule: SpaceRule, s: string): (r: string)
    ensures |r| <= |s|
    ensures Stripped(rule, r)
    ensures r == [] ==> AllSpace(rule, s)
  {
    StripShape(rule, s);
    DropTrailing(rule, DropLeading(rule, s))
  }

  lemma {:induction false} StripShape(rule: SpaceRule, s: string)
    ensures Stripped(rule, DropTrailing(rule, DropLeading(rule, s)))
    ensures DropTrailing(rule, DropLeading(rule, s)) == [] ==> AllSpace(rule, s)
  {
    StripFirstKept(rule, s);
    StripEmptyAllSpace(rule, s);
  }

  lemma {:induction false} StripFirstKept(rule: SpaceRule, s: string)
    ensures var r := DropTrailing(rule, DropLeading(rule, s)); r != [] ==> !IsSpace(rule, r[0])
  {
    var m := DropLeading(rule, s);
    var r := DropTrailing(rule, m);
    assert r != [] ==> r[0] == m[0];
  }

  lemma {:induction false} StripEmptyAllSpace(rule: SpaceRule, s: string)
    ensures DropTrailing(rule, DropLeading(rule, s)) == [] ==> AllSpace(rule, s)
  {
    var m := DropLeading(rule, s);
    var r := DropTrailing(rule, m);
    if r == [] {
      assert m[|r|..] == m;
      AllSpaceConcat(rule, s[..|s| - |m|], m);
      assert s == s[..|s| - |m|] + m;
    }
  }

  lemma {:induction false} AllSpaceConcat(rule: SpaceRule, a: string, b: string)
    requires AllSpace(rule, a) && AllSpace(rule, b)
    ensures AllSpace(rule, a + b)
  {
    forall i | 0 <= i < |a + b| ensures IsSpace(rule, (a + b)[i]) {
      if i >= |a| { assert (a + b)[i] == b[i - |a|]; }
    }
  }

  /** Strip only removes spaces: `s` is the result padded with spaces on both sides. */
  lemma {:induction false} StripDecompose(rule: SpaceRule, s: string) returns (pre: string, post: string)
    ensures s == pre + Strip(rule, s) + post
    ensures AllSpace(rule, pre) && AllSpace(rule, post)
  {
    var m := DropLeading(rule, s);
    var r := DropTrailing(rule, m);
    assert Strip(rule, s) == r;
    pre, post := s[..|s| - |m|], m[|r|..];
    assert AllSpace(rule, pre);
    assert AllSpace(rule, post);
    SplitAt(m, |r|);
    SplitAt(s, |s| - |m|);
    assert s == pre + m;
    assert m == r + post;
    ConcatAssoc(pre, r, post);
  }

  lemma {:induction false} ConcatAssoc(a: string, b: string, c: string)
    ensures a + (b + c) == a + b + c
  {
  }

  lemma {:induction false} SplitAt(s: string, k: nat)
    requires k <= |s|
    ensures s == s[..k] + s[k..]
  {
  }

  lemma {:induction false} DropLeadingOfPadded(rule: SpaceRule, pre: string, t: string)
    requires AllSpace(rule, pre)
    requires t == [] || !IsSpace(rule, t[0])
    ensures DropLeading(rule, pre + t) == t
  {
    if pre != [] {
      assert (pre + t)[1..] == pre[1..] + t;
      DropLeadingOfPadded(rule, pre[1..], t);
    } else {
      assert pre + t == t;
    }
  }

  lemma {:induction false} DropTrailingOfPadded(rule: SpaceRule, t: string, post: string)
    requires AllSpace(rule, post)
    requires t == [] || !IsSpace(rule, t[|t| - 1])
    ensures DropTrailing(rule, t + post) == t
  {
    if post != [] {
      var n := |post| - 1;
      assert (t + post)[..|t + post| - 1] == t + post[..n];
      DropTrailingOfPadded(rule, t, post[..n]);
    } else {
      assert t + post == t;
    }
  }

  /**
   * Strip is determined by its two properties: whatever spaces surround a
   * stripped string, stripping gives that string back.
   */
  lemma {:induction false} StripUnique(rule: SpaceRule, pre: string, t: string, post: string)
    requires AllSpace(rule, pre) && AllSpace(rule, post)
    requires Stripped(rule, t)
    ensures Strip(rule, pre + t + post) == t
  {
    if t == [] {
      assert pre + t + post == pre + post + [];
      DropLeadingOfPadded(rule, pre + post, []);
    } else {
      assert pre + t + post == pre + (t + post);
      DropLeadingOfPadded(rule, pre, t + post);
      DropTrailingOfPadded(rule, t, post);
    }
  }

  lemma {:induction false} StripOfStripped(rule: SpaceRule, t: string)
    requires Stripped(rule, t)
    ensures Strip(rule, t) == t
  {
    assert t == [] + t + [];
    StripUnique(rule, [], t, []);
  }

  /** A string strips to nothing exactly when it consists of spaces alone. */
  lemma {:induction false} StripEmptyIff(rule: SpaceRule, s: string)
    ensures Strip(rule, s) == [] <==> AllSpace(rule, s)
  {
    if AllSpace(rule, s) {
      assert s == s + [] + [];
      StripUnique(rule, s, [], []);
    }
  }

  /** Surrounding spaces do not matter to Strip. */
  lemma {:induction false} StripIgnoresPadding(rule: SpaceRule, pre: string, s: string, post: string)
    requires AllSpace(rule, pre) && AllSpace(rule, post)
    ensures Strip(rule, pre + s + post) == Strip(rule, s)
  {
    var a, b := StripDecompose(rule, s);
    var r := Strip(rule, s);
    AllSpaceConcat(rule, pre, a);
    AllSpaceConcat(rule, b, post);
    Regroup(pre, a, r, b, post);
    StripUnique(rule, pre + a, r, b + post);
  }

  lemma {:induction false} Regroup(pre: string, a: string, r: string, b: string, post: string)
    ensures pre + (a + r + b) + post == (pre + a) + r + (b + post)
  {
  }

  /** Where the two rules agree on every character of `s`, trim and strip agree on `s`. */
  lemma {:induction false} StripRulesAgree(s: string)
    requires forall i :: 0 <= i < |s| ==> (IsSpace(JavaTrim, s[i]) <==> IsSpace(RubyStrip, s[i]))
    ensures Strip(JavaTrim, s) == Strip(RubyStrip, s)
  {
    var a, b := StripDecompose(RubyStrip, s);
    var r := Strip(RubyStrip, s);
    assert forall i :: 0 <= i < |a| ==> a[i] == s[i];
    assert forall i :: 0 <= i < |b| ==> b[i] == s[|a| + |r| + i];
    if r != [] {
      assert r[0] == s[|a|] && r[|r| - 1] == s[|a| + |r| - 1];
    }
    StripUnique(JavaTrim, a, r, b);
  }

  /** Lower-cases an ASCII letter; every other character is unchanged. */
  function LowerChar(c: char): (d: char)
    ensures 'A' <= c <= 'Z' ==> 'a' <= d <= 'z' && d as int - c as int == 32
    ensures !('A' <= c <= 'Z') ==> d == c
  {
    if 'A' <= c <= 'Z' then (c as int + 32) as char else c
  }

  /** Lower-cases the ASCII letters of `s`, as toLowerCase and downcase do on ASCII text. */
  function AsciiLower(s: string): (r: string)
    ensures |r| == |s|
    ensures forall i :: 0 <= i < |s| ==> r[i] == LowerChar(s[i])
  {
    if s == [] then [] else [LowerChar(s[0])] + AsciiLower(s[1..])
  }

  lemma {:induction false} AsciiLowerConcat(a: string, b: string)
    ensures AsciiLower(a + b) == AsciiLower(a) + AsciiLower(b)
  {
    var la, lb := AsciiLower(a), AsciiLower(b);
    var l, r := AsciiLower(a + b), la + lb;
    assert |l| == |r|;
    forall i | 0 <= i < |l| ensures l[i] == r[i] {
      if i < |a| {
        assert l[i] == LowerChar((a + b)[i]) && (a + b)[i] == a[i];
        assert r[i] == la[i] == LowerChar(a[i]);
      } else {
        var j := i - |a|;
        assert l[i] == LowerChar((a + b)[i]) && (a + b)[i] == b[j];
        assert r[i] == lb[j] == LowerChar(b[j]);
      }
    }
  }

  /** Lower-casing never turns a space into a non-space or back, under either rule. */
  lemma {:induction false} LowerKeepsSpace(rule: SpaceRule, s: string)
    ensures AllSpace(rule, AsciiLower(s)) <==> AllSpace(rule, s)
    ensures Stripped(rule, AsciiLower(s)) <==> Stripped(rule, s)
  {
    assert forall c :: IsSpace(rule, LowerChar(c)) <==> IsSpace(rule, c);
  }

  /** Lower-casing and stripping can be done in either order. */
  lemma {:induction false} StripLowerCommute(rule: SpaceRule, s: string)
    ensures Strip(rule, AsciiLower(s)) == AsciiLower(Strip(rule, s))
  {
    var a, b := StripDecompose(rule, s);
    var r := Strip(rule, s);
    AsciiLowerConcat(a, r);
    AsciiLowerConcat(a + r, b);
    LowerKeepsSpace(rule, a);
    LowerKeepsSpace(rule, b);
    LowerKeepsSpace(rule, r);
    StripUnique(rule, AsciiLower(a), AsciiLower(r), AsciiLower(b));
  }

  lemma {:induction false} AsciiLowerIdempotent(s: string)
    ensures AsciiLower(AsciiLower(s)) == AsciiLower(s)
  {
  }

  /** Lower-casing leaves a string without upper-case ASCII letters as it is. */
  lemma {:induction false} AsciiLowerOfLower(s: string)
    requires forall i :: 0 <= i < |s| ==> !('A' <= s[i] <= 'Z')
    ensures AsciiLower(s) == s
  {
  }

  /** The name normalisation of both clients and the server: strip, then lower-case. */
  function Normalise(rule: SpaceRule, s: string): string {
    AsciiLower(Strip(rule, s))
  }

  /** A normalised name is normalised already. */
  lemma {:induction false} NormaliseIdempotent(rule: SpaceRule, s: string)
    ensures Normalise(rule, Normalise(rule, s)) == Normalise(rule, s)
  {
    var r := Strip(rule, s);
    calc {
      Normalise(rule, Normalise(rule, s));
      AsciiLower(Strip(rule, AsciiLower(r)));
      { StripLowerCommute(rule, r); }
      AsciiLower(AsciiLower(Strip(rule, r)));
      { StripOfStripped(rule, r); }
      AsciiLower(AsciiLower(r));
      { AsciiLowerIdempotent(r); }
      AsciiLower(r);
    }
  }

  /** Names equal up to ASCII case normalise alike. */
  lemma {:induction false} NormaliseIgnoresCase(rule: SpaceRule, s: string, t: string)
    requires AsciiLower(s) == AsciiLower(t)
    ensures Normalise(rule, s) == Normalise(rule, t)
  {
    StripLowerCommute(rule, s);
    StripLowerCommute(rule, t);
  }

  /** Names equal up to surrounding spaces normalise alike. */
  lemma {:induction false} NormaliseIgnoresPadding(rule: SpaceRule, pre: string, s: string, post: string)
    requires AllSpace(rule, pre) && AllSpace(rule, post)
    ensures Normalise(rule, pre + s + post) == Normalise(rule, s)
  {
    StripIgnoresPadding(rule, pre, s, post);
  }

  /** A word of lower-case letters, such as a codec name, is its own normal form. */
  lemma {:induction false} NormaliseOfLowerWord(rule: SpaceRule, s: string)
    requires forall i :: 0 <= i < |s| ==> 'a' <= s[i] <= 'z'
    ensures Normalise(rule, s) == s
  {
    assert s == [] || (!IsSpace(rule, s[0]) && !IsSpace(rule, s[|s| - 1]));
    NormaliseOfNormal(rule, s);
  }

  /** A stripped string without upper-case ASCII letters is its own normal form. */
  lemma {:induction false} NormaliseOfNormal(rule: SpaceRule, s: string)
    requires Stripped(rule, s)
    requires forall i :: 0 <= i < |s| ==> !('A' <= s[i] <= 'Z')
    ensures Normalise(rule, s) == s
  {
    StripOfStripped(rule, s);
    AsciiLowerOfLower(s);
  }
}
