/** The few string operations the program applies to volume ss and login names, on ASCII. */
module Text {

  predicate IsSpace(c: char) { c in {' ', '\t', '\n', '\r', '\U{0B}', '\U{0C}'} }

  function TrimLeft(s: string): string {
    if s != "" && IsSpace(s[0]) then TrimLeft(s[1..]) else s
  }

  function TrimRight(s: string): string {
    if s != "" && IsSpace(s[|s| - 1]) then TrimRight(s[..|s| - 1]) else s
  }

  function TrimSpace(s: string): string { TrimRight(TrimLeft(s)) }

  function LowerChar(c: char): char {
    if 'A' <= c <= 'Z' then c - 'A' + 'a' else c
  }

  function ToLower(s: string): (r: string)
    ensures |r| == |s|
  {
    seq(|s|, i requires 0 <= i < |s| => LowerChar(s[i]))
  }

  /** Byte-wise string comparison. */
  predicate Less(a: string, b: string) {
    b != "" && (a == "" || a[0] < b[0] || (a[0] == b[0] && Less(a[1..], b[1..])))
  }

  lemma {:induction false} LessAsymmetric(a: string, b: string)
    requires Less(a, b)
    ensures !Less(b, a)
  {
    if a != "" && a[0] == b[0] {
      LessAsymmetric(a[1..], b[1..]);
    }
  }

  lemma {:induction false} NotLessTransitive(a: string, b: string, c: string)
    requires !Less(a, b) && !Less(b, c)
    ensures !Less(a, c)
  {
    if a != "" && b != "" && c != "" && a[0] == b[0] == c[0] {
      NotLessTransitive(a[1..], b[1..], c[1..]);
    }
  }

  // ----- Letters -------------------------------------------------------------------------------------------------

  predicate Upper(c: char) { 'A' <= c <= 'Z' }

  /** The same character, or the same letter in the other case. */
  predicate SameLetter(c: char, d: char) {
    c == d || (Upper(c) && d as int == c as int + 32) || (Upper(d) && c as int == d as int + 32)
  }

  predicate SameLetters(s: string, t: string) {
    |s| == |t| && forall i | 0 <= i < |s| :: SameLetter(s[i], t[i])
  }

  lemma LowerEqualExactly(s: string, t: string)
    ensures ToLower(s) == ToLower(t) <==> SameLetters(s, t)
  {
    if |s| == |t| {
      forall i | 0 <= i < |s| ensures ToLower(s)[i] == ToLower(t)[i] <==> SameLetter(s[i], t[i]) {
        LowerMeets(s[i], t[i]);
      }
      if SameLetters(s, t) {
        assert ToLower(s) == ToLower(t);
      } else {
        var i :| 0 <= i < |s| && !SameLetter(s[i], t[i]);
        assert ToLower(s)[i] != ToLower(t)[i];
      }
    }
  }

  lemma LowerMeets(c: char, d: char)
    ensures LowerChar(c) == LowerChar(d) <==> SameLetter(c, d)
  {
  }

  /** The place of a character when case is ignored. */
  function Rank(c: char): int { if Upper(c) then c as int + 32 else c as int }

  /** The two agree up to case before `n`, and there `s` ends or goes on with the smaller letter. */
  ghost predicate PartAfter(s: string, t: string, n: nat) {
    && n <= |s| && n <= |t| && (forall i | 0 <= i < n :: SameLetter(s[i], t[i]))
    && (n == |s| || (n < |t| && Rank(s[n]) < Rank(t[n])))
  }

  /** With case ignored, `s` is the beginning of `t` or the smaller of the two. */
  ghost predicate NotBehind(s: string, t: string) { exists n: nat :: PartAfter(s, t, n) }

  lemma {:induction false} NotBehindExactly(s: string, t: string)
    ensures NotBehind(s, t) <==> !Less(ToLower(t), ToLower(s))
  {
    if s == "" {
      assert PartAfter(s, t, 0);
    } else if t != "" {
      LowerMeets(s[0], t[0]);
      assert ToLower(s)[1..] == ToLower(s[1..]) && ToLower(t)[1..] == ToLower(t[1..]);
      if SameLetter(s[0], t[0]) {
        NotBehindExactly(s[1..], t[1..]);
        PartFurther(s, t);
      } else if Rank(s[0]) < Rank(t[0]) {
        assert PartAfter(s, t, 0);
      }
    }
  }

  lemma PartFurther(s: string, t: string)
    requires s != "" && t != "" && SameLetter(s[0], t[0])
    ensures NotBehind(s, t) <==> NotBehind(s[1..], t[1..])
  {
    if n: nat :| PartAfter(s, t, n) {
      assert n > 0;
      assert PartAfter(s[1..], t[1..], n - 1);
    }
    if n: nat :| PartAfter(s[1..], t[1..], n) {
      assert PartAfter(s, t, n + 1);
    }
  }

  // ----- White space ---------------------------------------------------------------------------------------------

  predicate Blank(c: char) { c == ' ' || '\t' <= c <= '\r' }

  /** Only white space stands outside [a, b), and none at its two ends. */
  ghost predicate CoreAt(s: string, a: nat, b: nat) {
    && a <= b <= |s|
    && (forall i | 0 <= i < a :: Blank(s[i])) && (forall i | b <= i < |s| :: Blank(s[i]))
    && (a < b ==> !Blank(s[a]) && !Blank(s[b - 1]))
  }

  lemma {:induction false} TrimLeftIs(s: string, a: nat)
    requires a <= |s| && (forall i | 0 <= i < a :: Blank(s[i])) && (a < |s| ==> !Blank(s[a]))
    ensures TrimLeft(s) == s[a..]
  {
    if a > 0 {
      TrimLeftIs(s[1..], a - 1);
      assert s[1..][a - 1..] == s[a..];
    }
  }

  lemma {:induction false} TrimRightIs(s: string, b: nat)
    requires b <= |s| && (forall i | b <= i < |s| :: Blank(s[i])) && (b > 0 ==> !Blank(s[b - 1]))
    ensures TrimRight(s) == s[..b]
  {
    if b < |s| {
      TrimRightIs(s[..|s| - 1], b);
      assert s[..|s| - 1][..b] == s[..b];
    } else {
      assert s[..b] == s;
    }
  }

  /** Trimming leaves the core. */
  lemma TrimIs(s: string, a: nat, b: nat)
    requires CoreAt(s, a, b)
    ensures TrimSpace(s) == s[a..b]
  {
    if a == b {
      TrimLeftIs(s, |s|);
    } else {
      TrimLeftIs(s, a);
      TrimRightIs(s[a..], b - a);
      assert s[a..][..b - a] == s[a..b];
    }
  }

  /** Every string has a core. */
  lemma CoreOf(s: string) returns (a: nat, b: nat)
    ensures CoreAt(s, a, b)
  {
    a, b := 0, |s|;
    while a < |s| && Blank(s[a])
      invariant a <= |s| && forall i | 0 <= i < a :: Blank(s[i])
    {
      a := a + 1;
    }
    while b > a && Blank(s[b - 1])
      invariant a <= b <= |s| && forall i | b <= i < |s| :: Blank(s[i])
    {
      b := b - 1;
    }
  }
}
