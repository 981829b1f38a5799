/** The version history as displayed: `<br>` tags and line breaks removed, then a
    line break put before every "vX.Y dd/mm/yyyy" token (`format_historique_versions`). */
module History {
  import opened Text

  /** The character at position `k`: the handle the agreement facts below hang on, so
      that they are used only where a proof names a position. */
  function At(s: string, k: nat): char
    requires k < |s|
  {
    s[k]
  }

  /** `u[j..j + m]` and `s[i..i + m]` hold the same characters. */
  predicate Agree(s: string, i: nat, u: string, j: nat, m: nat) {
    i + m <= |s| && j + m <= |u| && forall k | j <= k < j + m :: At(u, k) == At(s, k - j + i)
  }

  /** A run that ends inside a stretch two strings share is the same in both. */
  lemma {:induction false} RunAgree(s: string, i: nat, u: string, j: nat, f: char -> bool, m: nat)
    requires Agree(s, i, u, j, m) && RunFrom(s, i, f) < m
    ensures RunFrom(u, j, f) == RunFrom(s, i, f)
    decreases m
  {
    assert At(u, j) == At(s, i);
    if f(s[i]) {
      RunAgree(s, i + 1, u, j + 1, f, m - 1);
    }
  }

  /** The length of the tag at the start of `s` made of `<`, `b`, `r` (either case),
      optional whitespace, an optional `/` and `>`; 0 if there is none. */
  function BrTagLength(s: string): (n: nat)
    ensures n <= |s|
  {
    if |s| >= 3 && s[0] == '<' && (s[1] == 'b' || s[1] == 'B') && (s[2] == 'r' || s[2] == 'R') then
      var p := 3 + RunFrom(s, 3, IsSpace);
      var q := if p < |s| && s[p] == '/' then p + 1 else p;
      if q < |s| && s[q] == '>' then q + 1 else 0
    else 0
  }

  /** The `<br>` tag pattern of the cleaner written out: `<`, `b` or `B`, `r` or `R`,
      whitespace, an optional `/` and `>`. */
  predicate IsBrTag(t: string) {
    && |t| >= 4 && t[0] == '<' && (t[1] == 'b' || t[1] == 'B') && (t[2] == 'r' || t[2] == 'R')
    && t[|t| - 1] == '>'
    && forall k :: 3 <= k < |t| - 1 ==> IsSpace(t[k]) || (k == |t| - 2 && t[k] == '/')
  }

  /** The tag measured at the start of a text is `m` characters long exactly when
      its first `m` characters form a `<br>` tag: the scan finds the tag the pattern
      describes, and only it. */
  lemma BrTagLengthIsTag(s: string, m: nat)
    requires 0 < m <= |s|
    ensures BrTagLength(s) == m <==> IsBrTag(s[..m])
  {
    var t := s[..m];
    if BrTagLength(s) == m {
      RunAll(s, 3, IsSpace);
      assert forall k :: 0 <= k < m ==> t[k] == s[k];
    }
    if IsBrTag(t) {
      assert forall k :: 0 <= k < m ==> t[k] == s[k];
      var j := if m - 2 >= 3 && s[m - 2] == '/' then m - 2 else m - 1;
      RunExact(s, 3, j, IsSpace);
    }
  }

  /** Every such `<br>` tag replaced by a line feed, leftmost first. */
  function ReplaceBrTags(s: string): string
    decreases |s|
  {
    if s == [] then []
    else
      var n := BrTagLength(s);
      if n > 0 then "\n" + ReplaceBrTags(s[n..]) else [s[0]] + ReplaceBrTags(s[1..])
  }

  /** The history with `<br>` tags, carriage returns and line feeds removed. */
  function Cleaned(historique: string): (r: string)
    ensures forall i :: 0 <= i < |r| ==> r[i] != '\r' && r[i] != '\n'
  {
    Drop(ReplaceBrTags(historique), IsLineBreak)
  }

  /** Text before any `<` passes through the tag replacement unchanged. */
  lemma {:induction false} ReplaceBrTagsPlain(a: string, x: string)
    requires '<' !in a
    ensures ReplaceBrTags(a + x) == a + ReplaceBrTags(x)
    decreases |a|
  {
    if a != [] {
      var s := a + x;
      assert s[0] == a[0] && s[1..] == a[1..] + x;
      ReplaceBrTagsPlain(a[1..], x);
      assert a == [a[0]] + a[1..];
    } else {
      assert a + x == x;
    }
  }

  /** A `<br>` tag at the start of the text becomes one line feed. */
  lemma ReplaceBrTagsTag(t: string, x: string)
    requires IsBrTag(t)
    ensures ReplaceBrTags(t + x) == "\n" + ReplaceBrTags(x)
  {
    var s := t + x;
    assert s[..|t|] == t;
    BrTagLengthIsTag(s, |t|);
    assert s[|t|..] == x;
  }

  /** A character that does not open a `<br>` tag is kept as it is. */
  lemma ReplaceBrTagsChar(c: char, x: string)
    requires forall m :: 0 < m <= |x| + 1 ==> !IsBrTag(([c] + x)[..m])
    ensures ReplaceBrTags([c] + x) == [c] + ReplaceBrTags(x)
  {
    var s := [c] + x;
    var n := BrTagLength(s);
    if n > 0 {
      BrTagLengthIsTag(s, n);
      assert false;
    }
    assert s[0] == c && s[1..] == x;
  }

  /** The cleaned history keeps the characters of text without a `<`, in order,
      except carriage returns and line feeds. */
  lemma CleanedPlain(a: string, x: string)
    requires '<' !in a
    ensures Cleaned(a + x) == Drop(a, IsLineBreak) + Cleaned(x)
  {
    ReplaceBrTagsPlain(a, x);
    DropAppend(a, ReplaceBrTags(x), IsLineBreak);
  }

  /** A `<br>` tag leaves nothing in the cleaned history. */
  lemma CleanedTag(t: string, x: string)
    requires IsBrTag(t)
    ensures Cleaned(t + x) == Cleaned(x)
  {
    ReplaceBrTagsTag(t, x);
    DropAppend("\n", ReplaceBrTags(x), IsLineBreak);
  }

  /** A character that does not open a `<br>` tag is kept unless it is a carriage
      return or a line feed. */
  lemma CleanedChar(c: char, x: string)
    requires forall m :: 0 < m <= |x| + 1 ==> !IsBrTag(([c] + x)[..m])
    ensures Cleaned([c] + x) == (if IsLineBreak(c) then [] else [c]) + Cleaned(x)
  {
    ReplaceBrTagsChar(c, x);
    DropAppend([c], ReplaceBrTags(x), IsLineBreak);
  }

  /** `\d{2}/\d{2}/\d{4}` at position `p`. */
  predicate IsDateAt(s: string, p: nat)
    requires p + 10 <= |s|
  {
    IsDigit(s[p]) && IsDigit(s[p + 1]) && s[p + 2] == '/' && IsDigit(s[p + 3]) && IsDigit(s[p + 4])
    && s[p + 5] == '/' && IsDigit(s[p + 6]) && IsDigit(s[p + 7]) && IsDigit(s[p + 8]) && IsDigit(s[p + 9])
  }

  /** The position just after a `v\d+\.\d+` version at position `i`, or `i` itself
      when there is none there. */
  function VersionEnd(s: string, i: nat): (e: nat)
    requires i <= |s|
    ensures i <= e <= |s|
    ensures e > i ==> s[i] == 'v' && IsDigit(s[e - 1])
  {
    if i >= |s| || s[i] != 'v' then i
    else
      var dot := i + 1 + RunFrom(s, i + 1, IsDigit);
      if dot == i + 1 || dot >= |s| || s[dot] != '.' then i
      else
        var e := dot + 1 + RunFrom(s, dot + 1, IsDigit);
        if e == dot + 1 then i else e
  }

  /** The length of the `\s+\d{2}/\d{2}/\d{4}` date part at position `e`; 0 if none. */
  function DateAfter(s: string, e: nat): (n: nat)
    requires e <= |s|
    ensures e + n <= |s|
    ensures n > 0 ==> IsDigit(s[e + n - 1])
  {
    var p := e + RunFrom(s, e, IsSpace);
    if p == e || p + 10 > |s| || !IsDateAt(s, p) then 0 else p + 10 - e
  }

  /** The length of the `v\d+\.\d+\s+\d{2}/\d{2}/\d{4}` token at position `i`; 0 if none.
      Each `+` run is followed by a character it cannot take, so the match is unique. */
  function VersionDateAt(s: string, i: nat): (n: nat)
    requires i <= |s|
    ensures i + n <= |s|
    ensures n > 0 ==> s[i] == 'v' && IsDigit(s[i + n - 1])
  {
    var e := VersionEnd(s, i);
    var d := DateAfter(s, e);
    if e == i || d == 0 then 0 else e + d - i
  }

  /** `v\d+\.\d+\s+\d{2}/\d{2}/\d{4}` written out at position `i`: a `v`, `d1` digits,
      a dot, `d2` digits, `w` whitespace characters and a date, `d1 + d2 + w + 12`
      characters in all. */
  predicate TokenShape(s: string, i: nat, d1: nat, d2: nat, w: nat) {
    && d1 > 0 && d2 > 0 && w > 0 && i + d1 + d2 + w + 12 <= |s|
    && s[i] == 'v'
    && (forall k :: i + 1 <= k < i + 1 + d1 ==> IsDigit(s[k]))
    && s[i + 1 + d1] == '.'
    && (forall k :: i + 2 + d1 <= k < i + 2 + d1 + d2 ==> IsDigit(s[k]))
    && (forall k :: i + 2 + d1 + d2 <= k < i + 2 + d1 + d2 + w ==> IsSpace(s[k]))
    && IsDateAt(s, i + 2 + d1 + d2 + w)
  }

  lemma SpaceIsNoDigit(c: char)
    ensures IsSpace(c) ==> !IsDigit(c)
  {
  }

  /** A `v`, a run of digits, a dot and a run of digits followed by a non-digit is
      what the version scan takes. */
  lemma VersionEndOfShape(s: string, i: nat, d1: nat, d2: nat)
    requires d1 > 0 && d2 > 0 && i + 2 + d1 + d2 < |s|
    requires s[i] == 'v' && s[i + 1 + d1] == '.' && !IsDigit(s[i + 2 + d1 + d2])
    requires forall k :: i + 1 <= k < i + 1 + d1 ==> IsDigit(s[k])
    requires forall k :: i + 2 + d1 <= k < i + 2 + d1 + d2 ==> IsDigit(s[k])
    ensures VersionEnd(s, i) == i + 2 + d1 + d2
  {
    RunExact(s, i + 1, i + 1 + d1, IsDigit);
    RunExact(s, i + 2 + d1, i + 2 + d1 + d2, IsDigit);
  }

  /** A run of whitespace followed by a date is what the date scan takes. */
  lemma DateAfterOfShape(s: string, e: nat, w: nat)
    requires w > 0 && e + w + 10 <= |s| && IsDateAt(s, e + w)
    requires forall k :: e <= k < e + w ==> IsSpace(s[k])
    ensures DateAfter(s, e) == w + 10
  {
    SpaceIsNoDigit(s[e + w]);
    RunExact(s, e, e + w, IsSpace);
  }

  /** What the version scan takes is a `v`, a run of digits, a dot and a run of digits. */
  lemma VersionEndFound(s: string, i: nat) returns (d1: nat, d2: nat)
    requires i <= |s| && VersionEnd(s, i) > i
    ensures d1 > 0 && d2 > 0 && VersionEnd(s, i) == i + 2 + d1 + d2
    ensures s[i] == 'v' && s[i + 1 + d1] == '.'
    ensures forall k :: i + 1 <= k < i + 1 + d1 ==> IsDigit(s[k])
    ensures forall k :: i + 2 + d1 <= k < i + 2 + d1 + d2 ==> IsDigit(s[k])
  {
    d1 := RunFrom(s, i + 1, IsDigit);
    d2 := RunFrom(s, i + 2 + d1, IsDigit);
    RunAll(s, i + 1, IsDigit);
    RunAll(s, i + 2 + d1, IsDigit);
  }

  /** What the date scan takes is a run of whitespace and a date. */
  lemma DateAfterFound(s: string, e: nat) returns (w: nat)
    requires e <= |s| && DateAfter(s, e) > 0
    ensures w > 0 && DateAfter(s, e) == w + 10 && IsDateAt(s, e + w)
    ensures forall k :: e <= k < e + w ==> IsSpace(s[k])
  {
    w := RunFrom(s, e, IsSpace);
    RunAll(s, e, IsSpace);
  }

  /** A token the scan finds has the shape of the pattern. */
  lemma TokenFound(s: string, i: nat) returns (d1: nat, d2: nat, w: nat)
    requires i <= |s| && VersionDateAt(s, i) > 0
    ensures TokenShape(s, i, d1, d2, w) && VersionDateAt(s, i) == d1 + d2 + w + 12
  {
    d1, d2 := VersionEndFound(s, i);
    w := DateAfterFound(s, VersionEnd(s, i));
  }

  /** Text of the shape of the pattern is measured whole by the scan. */
  lemma TokenMeasured(s: string, i: nat, d1: nat, d2: nat, w: nat)
    requires TokenShape(s, i, d1, d2, w)
    ensures VersionDateAt(s, i) == d1 + d2 + w + 12
  {
    var e := i + 2 + d1 + d2;
    assert IsSpace(s[e]);
    SpaceIsNoDigit(s[e]);
    VersionEndOfShape(s, i, d1, d2);
    DateAfterOfShape(s, e, w);
  }

  /** The scan finds a token at `i` exactly when the pattern matches there, and
      then it measures the whole match. */
  lemma VersionDateAtIsToken(s: string, i: nat)
    requires i <= |s|
    ensures VersionDateAt(s, i) > 0 <==> exists d1: nat, d2: nat, w: nat :: TokenShape(s, i, d1, d2, w)
    ensures forall d1: nat, d2: nat, w: nat :: TokenShape(s, i, d1, d2, w) ==> VersionDateAt(s, i) == d1 + d2 + w + 12
  {
    if VersionDateAt(s, i) > 0 {
      var d1, d2, w := TokenFound(s, i);
    }
    forall d1: nat, d2: nat, w: nat | TokenShape(s, i, d1, d2, w)
      ensures VersionDateAt(s, i) == d1 + d2 + w + 12
    {
      TokenMeasured(s, i, d1, d2, w);
    }
  }

  lemma VersionEndAgree(s: string, i: nat, u: string, j: nat, m: nat)
    requires Agree(s, i, u, j, m) && i < VersionEnd(s, i) < i + m
    ensures VersionEnd(u, j) - j == VersionEnd(s, i) - i
  {
    assert At(u, j) == At(s, i);
    RunAgree(s, i + 1, u, j + 1, IsDigit, m - 1);
    var dot := i + 1 + RunFrom(s, i + 1, IsDigit);
    assert At(u, dot - i + j) == At(s, dot);
    RunAgree(s, dot + 1, u, dot - i + j + 1, IsDigit, m - (dot - i) - 1);
  }

  lemma AgreeSub(s: string, i: nat, u: string, j: nat, m: nat, k: nat, w: nat)
    requires Agree(s, i, u, j, m) && k + w <= m
    ensures Agree(s, i + k, u, j + k, w)
  {
  }

  lemma DateAgree(s: string, p: nat, u: string, q: nat)
    requires Agree(s, p, u, q, 10)
    ensures IsDateAt(u, q) == IsDateAt(s, p)
  {
    assert At(u, q) == At(s, p) && At(u, q + 1) == At(s, p + 1) && At(u, q + 2) == At(s, p + 2);
    assert At(u, q + 3) == At(s, p + 3) && At(u, q + 4) == At(s, p + 4) && At(u, q + 5) == At(s, p + 5);
    assert At(u, q + 6) == At(s, p + 6) && At(u, q + 7) == At(s, p + 7);
    assert At(u, q + 8) == At(s, p + 8) && At(u, q + 9) == At(s, p + 9);
  }

  lemma DateAfterAgree(s: string, e: nat, u: string, f: nat, m: nat)
    requires Agree(s, e, u, f, m) && 0 < DateAfter(s, e) <= m
    ensures DateAfter(u, f) == DateAfter(s, e)
  {
    RunAgree(s, e, u, f, IsSpace, m);
    var w := RunFrom(s, e, IsSpace);
    AgreeSub(s, e, u, f, m, w, 10);
    DateAgree(s, e + w, u, f + w);
  }

  /** Whether a token is found depends only on the characters of the token. */
  lemma VersionDateAgree(s: string, i: nat, u: string, j: nat)
    requires i <= |s| && VersionDateAt(s, i) > 0 && Agree(s, i, u, j, VersionDateAt(s, i))
    ensures VersionDateAt(u, j) == VersionDateAt(s, i)
  {
    var n := VersionDateAt(s, i);
    var e := VersionEnd(s, i);
    var d := DateAfter(s, e);
    assert e > i && d > 0 && n == e + d - i;
    VersionEndAgree(s, i, u, j, n);
    DateAfterAgree(s, e, u, e - i + j, n - (e - i));
  }

  lemma VersionEndNoInnerV(s: string, i: nat)
    requires i <= |s|
    ensures forall t :: i < t < VersionEnd(s, i) ==> s[t] != 'v'
  {
    if i < |s| && s[i] == 'v' {
      RunAll(s, i + 1, IsDigit);
      var dot := i + 1 + RunFrom(s, i + 1, IsDigit);
      if dot < |s| {
        RunAll(s, dot + 1, IsDigit);
      }
    }
  }

  lemma DateAfterNoV(s: string, e: nat)
    requires e <= |s|
    ensures forall t :: e <= t < e + DateAfter(s, e) ==> s[t] != 'v'
  {
    RunAll(s, e, IsSpace);
  }

  /** A token holds no `v` but its first character, so no token starts inside another. */
  lemma TokenNoInnerV(s: string, i: nat)
    requires i <= |s|
    ensures forall t :: i < t < i + VersionDateAt(s, i) ==> s[t] != 'v'
  {
    VersionEndNoInnerV(s, i);
    DateAfterNoV(s, VersionEnd(s, i));
  }

  /** `re.sub(r'(?<!^)(?<!\n)(v\d+\.\d+\s+\d{2}/\d{2}/\d{4})', r'\n\1', s)`, scanning
      left to right; `blocked` says that the scan is at the start of the text or just
      after a line feed, where the look-behinds forbid a match. */
  function InsertBreaks(s: string, blocked: bool): string
    decreases |s|
  {
    if s == [] then []
    else
      var n := VersionDateAt(s, 0);
      if n > 0 && !blocked then "\n" + s[..n] + InsertBreaks(s[n..], false)
      else [s[0]] + InsertBreaks(s[1..], s[0] == '\n')
  }

  /** The scan adds line feeds and nothing else. */
  lemma {:induction false} InsertBreaksKeepsChars(s: string, blocked: bool)
    ensures forall c :: c in InsertBreaks(s, blocked) ==> c == '\n' || c in s
    decreases |s|
  {
    if s != [] {
      var n := VersionDateAt(s, 0);
      if n > 0 && !blocked {
        InsertBreaksKeepsChars(s[n..], false);
        assert s == s[..n] + s[n..];
      } else {
        InsertBreaksKeepsChars(s[1..], s[0] == '\n');
        assert s == [s[0]] + s[1..];
      }
    }
  }

  lemma DropTokenBack(s: string, n: nat, rest: string)
    requires n <= |s| && forall i :: 0 <= i < |s| ==> s[i] != '\n'
    requires Drop(rest, IsNewline) == s[n..]
    ensures Drop("\n" + s[..n] + rest, IsNewline) == s
  {
    DropAppend("\n" + s[..n], rest, IsNewline);
    DropAppend("\n", s[..n], IsNewline);
    assert Drop("\n", IsNewline) == [];
    DropNothing(s[..n], IsNewline);
    assert s[..n] + s[n..] == s;
  }

  lemma DropCharBack(s: string, rest: string)
    requires s != [] && s[0] != '\n'
    requires Drop(rest, IsNewline) == s[1..]
    ensures Drop([s[0]] + rest, IsNewline) == s
  {
    DropAppend([s[0]], rest, IsNewline);
    assert Drop([s[0]], IsNewline) == [s[0]];
    assert [s[0]] + s[1..] == s;
  }

  /** Taking the inserted line feeds out again gives back the text. */
  lemma {:induction false} InsertBreaksDropsBack(s: string, blocked: bool)
    requires forall i :: 0 <= i < |s| ==> s[i] != '\n'
    ensures Drop(InsertBreaks(s, blocked), IsNewline) == s
    decreases |s|
  {
    if s != [] {
      var n := VersionDateAt(s, 0);
      if n > 0 && !blocked {
        InsertBreaksDropsBack(s[n..], false);
        DropTokenBack(s, n, InsertBreaks(s[n..], false));
      } else {
        InsertBreaksDropsBack(s[1..], s[0] == '\n');
        DropCharBack(s, InsertBreaks(s[1..], s[0] == '\n'));
      }
    }
  }

  /** Every line feed of `r` stands right before a version token. */
  predicate BreaksBeforeTokens(r: string) {
    forall j :: 1 <= j <= |r| && r[j - 1] == '\n' ==> VersionDateAt(r, j) > 0
  }

  lemma AgreeAppend(a: string, b: string, p: nat, m: nat)
    requires p + m <= |b|
    ensures Agree(b, p, a + b, |a| + p, m)
  {
  }

  lemma AgreeSuffix(x: string, k: nat, p: nat, m: nat)
    requires k <= p && p + m <= |x|
    ensures Agree(x, p, x[k..], p - k, m)
  {
  }

  lemma AgreePrefix(y: string, n: nat, p: nat, m: nat)
    requires p + m <= n <= |y|
    ensures Agree(y, p, y[..n], p, m)
  {
  }

  /** The tokens after the line feeds of `b` are still there once `a` is put in front. */
  lemma BreaksShift(a: string, b: string)
    requires BreaksBeforeTokens(b)
    ensures forall j :: |a| < j <= |a + b| && (a + b)[j - 1] == '\n' ==> VersionDateAt(a + b, j) > 0
  {
    forall j | |a| < j <= |a + b| && (a + b)[j - 1] == '\n'
      ensures VersionDateAt(a + b, j) > 0
    {
      var t := j - |a|;
      assert b[t - 1] == (a + b)[j - 1];
      var m := VersionDateAt(b, t);
      AgreeAppend(a, b, t, m);
      VersionDateAgree(b, t, a + b, j);
    }
  }

  lemma BreaksBeforeToken(s: string, n: nat, rest: string)
    requires 0 < n <= |s| && VersionDateAt(s, 0) == n && forall i :: 0 <= i < |s| ==> s[i] != '\n'
    requires BreaksBeforeTokens(rest)
    ensures BreaksBeforeTokens("\n" + s[..n] + rest)
  {
    var a := "\n" + s[..n];
    var r := a + rest;
    BreaksShift(a, rest);
    assert Agree(s, 0, r, 1, n);
    VersionDateAgree(s, 0, r, 1);
    assert forall i :: 0 < i < |a| ==> r[i] == s[i - 1];
  }

  lemma BreaksAfterChar(c: char, rest: string)
    requires c != '\n' && BreaksBeforeTokens(rest)
    ensures BreaksBeforeTokens([c] + rest)
  {
    BreaksShift([c], rest);
  }

  /** Every line feed the scan produces stands right before a version token. */
  lemma {:induction false} InsertBreaksBeforeTokens(s: string, blocked: bool)
    requires forall i :: 0 <= i < |s| ==> s[i] != '\n'
    ensures BreaksBeforeTokens(InsertBreaks(s, blocked))
    decreases |s|
  {
    if s != [] {
      var n := VersionDateAt(s, 0);
      if n > 0 && !blocked {
        InsertBreaksBeforeTokens(s[n..], false);
        BreaksBeforeToken(s, n, InsertBreaks(s[n..], false));
      } else {
        InsertBreaksBeforeTokens(s[1..], s[0] == '\n');
        BreaksAfterChar(s[0], InsertBreaks(s[1..], s[0] == '\n'));
      }
    }
  }

  lemma SuffixKeepsToken(x: string, k: nat, j: nat)
    requires k + j <= |x| && VersionDateAt(x, k + j) > 0
    ensures VersionDateAt(x[k..], j) == VersionDateAt(x, k + j)
  {
    AgreeSuffix(x, k, k + j, VersionDateAt(x, k + j));
    VersionDateAgree(x, k + j, x[k..], j);
  }

  /** Every version token of `r` past its start has a line feed right before it. */
  predicate TokensAfterBreaks(r: string) {
    forall i :: 0 < i <= |r| && VersionDateAt(r, i) > 0 ==> r[i - 1] == '\n'
  }

  lemma AgreeAppendBack(a: string, b: string, p: nat, m: nat)
    requires p + m <= |b|
    ensures Agree(a + b, |a| + p, b, p, m)
  {
  }

  lemma ShiftTokenAfterBreak(a: string, b: string, i: nat)
    requires a != [] && TokensAfterBreaks(b) && VersionDateAt(b, 0) == 0
    requires |a| <= i <= |a + b| && VersionDateAt(a + b, i) > 0
    ensures (a + b)[i - 1] == '\n'
  {
    var p := i - |a|;
    AgreeAppendBack(a, b, p, VersionDateAt(a + b, i));
    VersionDateAgree(a + b, i, b, p);
    assert VersionDateAt(b, p) > 0;
    assert b[p - 1] == (a + b)[i - 1];
  }

  /** Tokens of `a + b` that start in `b` have their line feed when `b`'s have theirs
      and `b` does not start with a token. */
  lemma ShiftTokensAfterBreaks(a: string, b: string)
    requires a != [] && TokensAfterBreaks(b) && VersionDateAt(b, 0) == 0
    ensures forall i :: |a| <= i <= |a + b| && VersionDateAt(a + b, i) > 0 ==> (a + b)[i - 1] == '\n'
  {
    forall i | |a| <= i <= |a + b| && VersionDateAt(a + b, i) > 0
      ensures (a + b)[i - 1] == '\n'
    {
      ShiftTokenAfterBreak(a, b, i);
    }
  }

  /** Up to its first line feed, the scan's output is the text itself. */
  lemma {:induction false} InsertBreaksCopies(s: string, blocked: bool, k: nat)
    requires forall i :: 0 <= i < |s| ==> s[i] != '\n'
    requires k <= |InsertBreaks(s, blocked)|
    requires forall t :: 0 <= t < k ==> InsertBreaks(s, blocked)[t] != '\n'
    ensures k <= |s| && Agree(InsertBreaks(s, blocked), 0, s, 0, k)
    decreases |s|
  {
    if k > 0 {
      var r := InsertBreaks(s, blocked);
      assert r[0] != '\n';
      assert r[0] == if VersionDateAt(s, 0) > 0 && !blocked then '\n' else s[0];
      var rest := InsertBreaks(s[1..], false);
      assert r == [s[0]] + rest;
      assert forall t :: 0 <= t < k - 1 ==> rest[t] == r[t + 1];
      InsertBreaksCopies(s[1..], false, k - 1);
      AgreeCons(s, rest, k);
    }
  }

  /** A line feed inside a token of `r` would have to precede a `v` inside it, or be
      its final digit. */
  lemma NoBreakInsideToken(r: string, c: char, rest: string, t: nat)
    requires r == [c] + rest && BreaksBeforeTokens(rest)
    requires 0 < VersionDateAt(r, 0) && t + 1 < VersionDateAt(r, 0)
    ensures rest[t] != '\n'
  {
    var m := VersionDateAt(r, 0);
    assert r[t + 1] == rest[t];
    if t + 2 < m {
      TokenNoInnerV(r, 0);
      assert r[t + 2] == rest[t + 1] && rest[t + 1] != 'v';
      assert VersionDateAt(rest, t + 1) == 0;
    } else {
      assert IsDigit(r[m - 1]);
    }
  }

  lemma AgreeCons(s: string, rest: string, m: nat)
    requires 0 < m <= |s| && Agree(rest, 0, s[1..], 0, m - 1)
    ensures Agree([s[0]] + rest, 0, s, 0, m)
  {
    forall t | 0 <= t < m
      ensures At(s, t) == At([s[0]] + rest, t)
    {
      if t > 0 {
        assert At(s[1..], t - 1) == At(rest, t - 1);
      }
    }
  }

  /** A token at the start of the output past an unmatched first character is a
      token of the text. */
  lemma TokenAtStartComesFromText(s: string, rest: string)
    requires s != [] && forall i :: 0 <= i < |s| ==> s[i] != '\n'
    requires rest == InsertBreaks(s[1..], false) && BreaksBeforeTokens(rest)
    requires VersionDateAt([s[0]] + rest, 0) > 0
    ensures VersionDateAt(s, 0) == VersionDateAt([s[0]] + rest, 0)
  {
    var r := [s[0]] + rest;
    var m := VersionDateAt(r, 0);
    forall t | 0 <= t < m - 1
      ensures rest[t] != '\n'
    {
      NoBreakInsideToken(r, s[0], rest, t);
    }
    InsertBreaksCopies(s[1..], false, m - 1);
    AgreeCons(s, rest, m);
    VersionDateAgree(r, 0, s, 0);
  }

  lemma MatchTokensAfterBreaks(s: string, n: nat, rest: string)
    requires 0 < n <= |s| && VersionDateAt(s, 0) == n
    requires TokensAfterBreaks(rest) && VersionDateAt(rest, 0) == 0
    ensures TokensAfterBreaks("\n" + s[..n] + rest)
  {
    var a := "\n" + s[..n];
    var r := a + rest;
    ShiftTokensAfterBreaks(a, rest);
    TokenNoInnerV(s, 0);
    assert forall i :: 1 < i < |a| ==> r[i] == s[i - 1];
  }

  /** Conversely to `InsertBreaksBeforeTokens`, every token past the start gets its line
      feed, and where the look-behinds allow a match the output does not start with a
      token. */
  lemma {:induction false} InsertBreaksAtTokens(s: string, blocked: bool)
    requires forall i :: 0 <= i < |s| ==> s[i] != '\n'
    ensures TokensAfterBreaks(InsertBreaks(s, blocked))
    ensures !blocked ==> VersionDateAt(InsertBreaks(s, blocked), 0) == 0
    decreases |s|
  {
    if s != [] {
      var n := VersionDateAt(s, 0);
      if n > 0 && !blocked {
        var rest := InsertBreaks(s[n..], false);
        InsertBreaksAtTokens(s[n..], false);
        MatchTokensAfterBreaks(s, n, rest);
        assert ("\n" + s[..n] + rest)[0] == '\n';
      } else {
        var rest := InsertBreaks(s[1..], false);
        InsertBreaksAtTokens(s[1..], false);
        ShiftTokensAfterBreaks([s[0]], rest);
        if !blocked && VersionDateAt([s[0]] + rest, 0) > 0 {
          InsertBreaksBeforeTokens(s[1..], false);
          TokenAtStartComesFromText(s, rest);
          assert false;
        }
      }
    }
  }

  lemma AgreeFromSuffix(x: string, k: nat, i: nat, m: nat)
    requires k + i + m <= |x|
    ensures Agree(x[k..], i, x, k + i, m)
  {
  }

  lemma AgreeFromPrefix(y: string, n: nat, i: nat, m: nat)
    requires i + m <= n <= |y|
    ensures Agree(y[..n], i, y, i, m)
  {
  }

  lemma SuffixKeepsBreaks(x: string, k: nat)
    requires k <= |x| && TokensAfterBreaks(x)
    ensures TokensAfterBreaks(x[k..])
  {
    forall i | 0 < i <= |x| - k && VersionDateAt(x[k..], i) > 0
      ensures x[k..][i - 1] == '\n'
    {
      SuffixKeepsBreak(x, x[k..], k, i);
    }
  }

  lemma SuffixKeepsBreak(x: string, y: string, k: nat, i: nat)
    requires k <= |x| && y == x[k..]
    requires 0 < i <= |y| && VersionDateAt(y, i) > 0
    ensures VersionDateAt(x, k + i) > 0
  {
    CopyAgrees(x, y, k, i, VersionDateAt(y, i));
    VersionDateAgree(y, i, x, k + i);
  }

  /** A stretch of the tail of `x` from `k` agrees with `x` shifted by `k`. */
  lemma CopyAgrees(x: string, y: string, k: nat, i: nat, m: nat)
    requires k <= |x| && y == x[k..]
    requires i + m <= |y|
    ensures Agree(y, i, x, k + i, m)
  {
    forall t | k + i <= t < k + i + m
      ensures At(x, t) == At(y, t - k)
    {
      assert y[t - k] == x[k + (t - k)];
    }
  }

  lemma PrefixKeepsBreaks(y: string, n: nat)
    requires n <= |y| && TokensAfterBreaks(y)
    ensures TokensAfterBreaks(y[..n])
  {
    forall i | 0 < i <= n && VersionDateAt(y[..n], i) > 0
      ensures y[..n][i - 1] == '\n'
    {
      AgreeFromPrefix(y, n, i, VersionDateAt(y[..n], i));
      VersionDateAgree(y[..n], i, y, i);
    }
  }

  /** Every suffix keeps the tokens after its line feeds. */
  lemma SuffixKeepsTokens(x: string, k: nat)
    requires k <= |x| && BreaksBeforeTokens(x)
    ensures BreaksBeforeTokens(x[k..])
  {
    forall j | 1 <= j <= |x| - k && x[k..][j - 1] == '\n'
      ensures VersionDateAt(x[k..], j) > 0
    {
      assert x[k + j - 1] == '\n';
      assert VersionDateAt(x, k + j) > 0;
      SuffixKeepsToken(x, k, j);
    }
  }

  lemma TrimLeftKeepsTokens(x: string)
    requires BreaksBeforeTokens(x)
    ensures BreaksBeforeTokens(TrimLeft(x))
  {
    SuffixKeepsTokens(x, |x| - |TrimLeft(x)|);
  }

  /** A token ends with a digit, so cutting trailing whitespace leaves it whole. */
  lemma TrimRightKeepsToken(y: string, j: nat)
    requires BreaksBeforeTokens(y)
    requires 1 <= j <= |TrimRight(y)| && TrimRight(y)[j - 1] == '\n'
    ensures VersionDateAt(TrimRight(y), j) > 0
  {
    var r := TrimRight(y);
    assert y[j - 1] == r[j - 1];
    var m := VersionDateAt(y, j);
    assert m > 0;
    TrimRightDropsSpaces(y);
    assert j + m <= |r|;
    AgreePrefix(y, |r|, j, m);
    assert y[..|r|] == r;
    VersionDateAgree(y, j, r, j);
  }

  lemma TrimRightKeepsTokens(y: string)
    requires BreaksBeforeTokens(y)
    ensures BreaksBeforeTokens(TrimRight(y))
  {
    var r := TrimRight(y);
    forall j | 1 <= j <= |r| && r[j - 1] == '\n'
      ensures VersionDateAt(r, j) > 0
    {
      TrimRightKeepsToken(y, j);
    }
  }

  /** Taking out the line feeds and cutting leading whitespace commute. */
  lemma {:induction false} DropNewlinesTrimLeft(x: string)
    ensures Drop(TrimLeft(x), IsNewline) == TrimLeft(Drop(x, IsNewline))
  {
    if x != [] {
      DropStep(x, IsNewline);
      if x[0] == '\n' {
        assert IsSpace(x[0]);
        DropNewlinesTrimLeft(x[1..]);
      } else {
        TrimLeftCons(x[0], Drop(x[1..], IsNewline));
        if IsSpace(x[0]) {
          DropNewlinesTrimLeft(x[1..]);
        }
      }
    }
  }

  /** Taking out the line feeds and cutting trailing whitespace commute. */
  lemma {:induction false} DropNewlinesTrimRight(x: string)
    ensures Drop(TrimRight(x), IsNewline) == TrimRight(Drop(x, IsNewline))
    decreases |x|
  {
    if x != [] {
      var front := x[..|x| - 1];
      var c := x[|x| - 1];
      DropSnoc(x, IsNewline);
      DropNewlinesTrimRight(front);
      if c == '\n' {
        assert Drop(front, IsNewline) + [] == Drop(front, IsNewline);
      } else {
        TrimRightSnoc(Drop(front, IsNewline), c);
      }
    }
  }

  /** `format_historique_versions`: the history with `<br>` tags and line breaks
      taken out, a line feed put before every version token not at its start, and
      the whole stripped. */
  function FormatHistorique(historique: string): string {
    Strip(InsertBreaks(Cleaned(historique), true))
  }

  /** The formatted history has no surrounding whitespace and no carriage return. */
  lemma FormatHistoriqueIsClean(historique: string)
    ensures var r := FormatHistorique(historique);
            && (r == [] || (!IsSpace(r[0]) && !IsSpace(r[|r| - 1])))
            && forall i :: 0 <= i < |r| ==> r[i] != '\r'
  {
    var x := InsertBreaks(Cleaned(historique), true);
    InsertBreaksKeepsChars(Cleaned(historique), true);
    StripKeepsChars(x);
  }

  /** Every line feed of the formatted history is followed by a version token. */
  lemma FormatHistoriqueBreaksBeforeTokens(historique: string)
    ensures BreaksBeforeTokens(FormatHistorique(historique))
  {
    var c := Cleaned(historique);
    var x := InsertBreaks(c, true);
    InsertBreaksBeforeTokens(c, true);
    TrimLeftKeepsTokens(x);
    TrimRightKeepsTokens(TrimLeft(x));
  }

  /** Every version token of the formatted history but a leading one has a line feed
      right before it. */
  lemma FormatHistoriqueBreaksAtTokens(historique: string)
    ensures TokensAfterBreaks(FormatHistorique(historique))
  {
    var c := Cleaned(historique);
    var x := InsertBreaks(c, true);
    InsertBreaksAtTokens(c, true);
    var y := TrimLeft(x);
    SuffixKeepsBreaks(x, |x| - |y|);
    PrefixKeepsBreaks(y, |TrimRight(y)|);
  }

  /** The two together: past the first character, a line feed stands right before
      position `i` exactly when a version token starts there. */
  lemma FormatHistoriqueLines(historique: string)
    ensures var r := FormatHistorique(historique);
            forall i :: 0 < i < |r| ==> (r[i - 1] == '\n' <==> VersionDateAt(r, i) > 0)
  {
    FormatHistoriqueBreaksBeforeTokens(historique);
    FormatHistoriqueBreaksAtTokens(historique);
  }

  /** Deleting the line feeds of the formatted history gives back the cleaned input,
      stripped: formatting only adds line feeds. */
  lemma FormatHistoriqueOnlyAddsBreaks(historique: string)
    ensures Drop(FormatHistorique(historique), IsNewline) == Strip(Cleaned(historique))
  {
    var c := Cleaned(historique);
    var x := InsertBreaks(c, true);
    InsertBreaksDropsBack(c, true);
    DropNewlinesTrimLeft(x);
    DropNewlinesTrimRight(TrimLeft(x));
  }
}
