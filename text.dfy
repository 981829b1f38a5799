/** Character and string helpers that stand in for the Python `str` methods and
    the few `re` patterns the documentation cleaner relies on. */
module Text {

  /** Python's `str.isspace`, which is also what `\s` matches in a `str` pattern. */
  predicate IsSpace(c: char) {
    || c == ' '
    || ('\t' <= c <= '\r')
    || ('\U{1C}' <= c <= '\U{1F}')
    || c == '\U{85}' || c == '\U{A0}' || c == '\U{1680}'
    || ('\U{2000}' <= c <= '\U{200A}')
    || c == '\U{2028}' || c == '\U{2029}' || c == '\U{202F}' || c == '\U{205F}' || c == '\U{3000}'
  }

  /** `\d`, restricted to the ASCII digits. */
  predicate IsDigit(c: char) {
    '0' <= c <= '9'
  }

  /** The class `[a-zA-Z0-9_]` of a context identifier. */
  predicate IsIdChar(c: char) {
    ('a' <= c <= 'z') || ('A' <= c <= 'Z') || IsDigit(c) || c == '_'
  }

  /** The length of the longest run of characters satisfying `f` from position `i`. */
  function RunFrom(s: string, i: nat, f: char -> bool): (n: nat)
    requires i <= |s|
    ensures i + n <= |s|
    ensures n > 0 ==> f(s[i + n - 1])
    ensures i + n < |s| ==> !f(s[i + n])
    decreases |s| - i
  {
    if i < |s| && f(s[i]) then 1 + RunFrom(s, i + 1, f) else 0
  }

  /** Every character of the run satisfies `f`. */
  lemma {:induction false} RunAll(s: string, i: nat, f: char -> bool)
    requires i <= |s|
    ensures forall k :: i <= k < i + RunFrom(s, i, f) ==> f(s[k])
    decreases |s| - i
  {
    if i < |s| && f(s[i]) {
      RunAll(s, i + 1, f);
    }
  }

  /** A stretch of characters satisfying `f` that ends at the end of the text or
      before a character that does not is the run. */
  lemma {:induction false} RunExact(s: string, i: nat, j: nat, f: char -> bool)
    requires i <= j <= |s|
    requires forall k :: i <= k < j ==> f(s[k])
    requires j == |s| || !f(s[j])
    ensures RunFrom(s, i, f) == j - i
    decreases j - i
  {
    if i < j {
      RunExact(s, i + 1, j, f);
    }
  }

  predicate IsNewline(c: char) {
    c == '\n'
  }

  predicate IsLineBreak(c: char) {
    c == '\r' || c == '\n'
  }

  /** Python's `str.lower` on one character, for the ASCII and Latin-1 letters. */
  function LowerChar(c: char): char {
    if ('A' <= c <= 'Z') || ('\U{C0}' <= c <= '\U{DE}' && c != '\U{D7}') then (c as int + 32) as char else c
  }

  function Lower(s: string): (r: string)
    ensures |r| == |s|
    ensures forall i :: 0 <= i < |s| ==> r[i] == LowerChar(s[i])
  {
    seq(|s|, i requires 0 <= i < |s| => LowerChar(s[i]))
  }

  /** How the parts of a concatenation sit in it, stated on parts the solver need
      not look into. */
  lemma PartsOfAppend(a: string, b: string)
    ensures a <= a + b && EndsWith(a + b, b)
  {
    assert (a + b)[..|a|] == a;
    assert (a + b)[|a|..] == b;
  }

  lemma PrefixTrans(a: string, b: string, c: string)
    requires a <= b && b <= c
    ensures a <= c
  {
  }

  lemma SuffixTrans(a: string, b: string, c: string)
    requires EndsWith(b, a) && EndsWith(c, b)
    ensures EndsWith(c, a)
  {
    assert c[|c| - |a|..] == c[|c| - |b|..][|b| - |a|..];
  }

  lemma PrefixAppend(a: string, b: string, c: string)
    requires b <= c
    ensures a + b <= a + c
  {
    assert forall i :: |a| <= i < |a + b| ==> (a + b)[i] == b[i - |a|];
  }

  /** Concatenation is associative. */
  lemma Assoc(x: string, y: string, z: string)
    ensures x + y + z == x + (y + z)
  {
  }

  /** Concatenation regroups: a text placed after `h` is the same whichever way its
      three parts are grouped. */
  lemma Regroup(h: string, a: string, m: string, b: string)
    ensures h + (a + m + b) == h + a + m + b
  {
  }

  lemma SplitAt(s: string, i: nat, j: nat)
    requires i <= j <= |s|
    ensures s[i..] == s[i..j] + s[j..]
  {
  }

  /** Python's `pat in s`. */
  predicate Contains(s: string, pat: string) {
    exists i | 0 <= i <= |s| :: pat <= s[i..]
  }

  /** Python's `s.endswith(suffix)`. */
  predicate EndsWith(s: string, suffix: string) {
    |suffix| <= |s| && s[|s| - |suffix|..] == suffix
  }

  /** Python's `s.lstrip()`: drops the leading whitespace. */
  function TrimLeft(s: string): (r: string)
    ensures |r| <= |s| && r == s[|s| - |r|..]
    ensures r == [] || !IsSpace(r[0])
  {
    if s != [] && IsSpace(s[0]) then TrimLeft(s[1..]) else s
  }

  /** What `lstrip` drops is whitespace. */
  lemma {:induction false} TrimLeftDropsSpaces(s: string)
    ensures forall i :: 0 <= i < |s| - |TrimLeft(s)| ==> IsSpace(s[i])
  {
    if s != [] && IsSpace(s[0]) {
      TrimLeftDropsSpaces(s[1..]);
      forall i | 1 <= i < |s| - |TrimLeft(s)|
        ensures IsSpace(s[i])
      {
        assert s[i] == s[1..][i - 1];
      }
    }
  }

  lemma TrimLeftCons(c: char, d: string)
    ensures TrimLeft([c] + d) == if IsSpace(c) then TrimLeft(d) else [c] + d
  {
    assert ([c] + d)[0] == c && ([c] + d)[1..] == d;
  }

  /** Python's `s.rstrip()`: drops the trailing whitespace. */
  function TrimRight(s: string): (r: string)
    ensures |r| <= |s| && r == s[..|r|]
    ensures r == [] || !IsSpace(r[|r| - 1])
  {
    if s != [] && IsSpace(s[|s| - 1]) then TrimRight(s[..|s| - 1]) else s
  }

  /** What `rstrip` drops is whitespace. */
  lemma {:induction false} TrimRightDropsSpaces(s: string)
    ensures forall i :: |TrimRight(s)| <= i < |s| ==> IsSpace(s[i])
  {
    if s != [] && IsSpace(s[|s| - 1]) {
      TrimRightDropsSpaces(s[..|s| - 1]);
    }
  }

  lemma TrimRightSnoc(d: string, c: char)
    ensures TrimRight(d + [c]) == if IsSpace(c) then TrimRight(d) else d + [c]
  {
    assert (d + [c])[|d|] == c && (d + [c])[..|d|] == d;
  }

  /** Python's `s.strip()`. */
  function Strip(s: string): (r: string)
    ensures r == [] || (!IsSpace(r[0]) && !IsSpace(r[|r| - 1]))
  {
    TrimRight(TrimLeft(s))
  }

  /** `strip` only removes characters. */
  lemma StripKeepsChars(s: string)
    ensures forall i :: 0 <= i < |Strip(s)| ==> Strip(s)[i] in s
  {
    var y := TrimLeft(s);
    var r := TrimRight(y);
    forall i | 0 <= i < |r|
      ensures r[i] in s
    {
      assert r[i] == y[i] == s[|s| - |y| + i];
    }
  }

  /** `strip` keeps a contiguous slice, starting where `lstrip` stops. */
  lemma {:induction false} StripIsSlice(s: string)
    ensures var a := |s| - |TrimLeft(s)|;
            a + |Strip(s)| <= |s| && Strip(s) == s[a..a + |Strip(s)|]
  {
    var y := TrimLeft(s);
    var r := TrimRight(y);
    PrefixOfSuffix(s, y, r);
  }

  /** A prefix `r` of a suffix `y` of `s` is a slice of `s`. */
  lemma PrefixOfSuffix(s: string, y: string, r: string)
    requires |y| <= |s| && y == s[|s| - |y|..] && |r| <= |y| && r == y[..|r|]
    ensures |s| - |y| + |r| <= |s| && r == s[|s| - |y|..|s| - |y| + |r|]
  {
  }

  predicate IsBlank(s: string) {
    Strip(s) == []
  }

  /** `s` with every character satisfying `drop` taken out (`str.replace(c, '')`, `re.sub(r'\s+', '', s)`). */
  function Drop(s: string, drop: char -> bool): (r: string)
    ensures |r| <= |s|
    ensures forall i :: 0 <= i < |r| ==> !drop(r[i])
  {
    if s == [] then [] else (if drop(s[0]) then [] else [s[0]]) + Drop(s[1..], drop)
  }

  /** `Drop` only removes characters. */
  lemma {:induction false} DropKeepsChars(s: string, drop: char -> bool)
    ensures forall i :: 0 <= i < |Drop(s, drop)| ==> Drop(s, drop)[i] in s
  {
    if s != [] {
      DropKeepsChars(s[1..], drop);
    }
  }

  lemma DropStep(s: string, drop: char -> bool)
    requires s != []
    ensures Drop(s, drop) == if drop(s[0]) then Drop(s[1..], drop) else [s[0]] + Drop(s[1..], drop)
  {
    assert [] + Drop(s[1..], drop) == Drop(s[1..], drop);
  }

  lemma {:induction false} DropAppend(a: string, b: string, drop: char -> bool)
    ensures Drop(a + b, drop) == Drop(a, drop) + Drop(b, drop)
  {
    if a == [] {
      assert a + b == b;
    } else {
      assert (a + b)[0] == a[0] && (a + b)[1..] == a[1..] + b;
      DropAppend(a[1..], b, drop);
    }
  }

  lemma DropSnoc(s: string, drop: char -> bool)
    requires s != []
    ensures Drop(s, drop) == Drop(s[..|s| - 1], drop) + if drop(s[|s| - 1]) then [] else [s[|s| - 1]]
  {
    var c := s[|s| - 1];
    assert s == s[..|s| - 1] + [c];
    DropAppend(s[..|s| - 1], [c], drop);
    DropStep([c], drop);
    assert [c][1..] == [];
  }

  /** `Drop` leaves a string without any dropped character as it is. */
  lemma {:induction false} DropNothing(s: string, drop: char -> bool)
    requires forall i :: 0 <= i < |s| ==> !drop(s[i])
    ensures Drop(s, drop) == s
  {
    if s != [] {
      DropNothing(s[1..], drop);
    }
  }

  /** Python's `s.replace(pat, rep)` (equivalently `re.sub` with a literal pattern and
      a replacement free of backslashes): leftmost, non-overlapping occurrences. */
  function ReplaceAll(s: string, pat: string, rep: string): string
    requires pat != []
    decreases |s|
  {
    if |s| < |pat| then s
    else if pat <= s then rep + ReplaceAll(s[|pat|..], pat, rep)
    else [s[0]] + ReplaceAll(s[1..], pat, rep)
  }

  /** A text lacking one of the characters of the pattern is left as it is. */
  lemma {:induction false} ReplaceAllAbsent(s: string, pat: string, rep: string, j: nat)
    requires j < |pat|
    requires forall i :: 0 <= i < |s| ==> s[i] != pat[j]
    ensures ReplaceAll(s, pat, rep) == s
    decreases |s|
  {
    if |s| >= |pat| {
      assert s[j] != pat[j];
      assert !(pat <= s);
      ReplaceAllAbsent(s[1..], pat, rep, j);
      assert [s[0]] + s[1..] == s;
    }
  }

  /** Python's `sep.join(parts)`. */
  function Join(parts: seq<string>, sep: string): string {
    if |parts| == 0 then ""
    else if |parts| == 1 then parts[0]
    else parts[0] + sep + Join(parts[1..], sep)
  }

  /** Python's `s.split(sep)` for a one-character separator: at least one piece,
      and no piece holds the separator. */
  function Split(s: string, sep: char): (r: seq<string>)
    ensures |r| >= 1
    ensures forall k :: 0 <= k < |r| ==> sep !in r[k]
  {
    if s == [] then [""]
    else
      var rest := Split(s[1..], sep);
      if s[0] == sep then
        var r := [""] + rest;
        assert forall k :: 1 <= k < |r| ==> r[k] == rest[k - 1];
        r
      else
        var r := [[s[0]] + rest[0]] + rest[1..];
        assert forall k :: 1 <= k < |r| ==> r[k] == rest[k];
        r
  }

  /** Joining the pieces with the separator gives the text back. */
  lemma {:induction false} JoinSplit(s: string, sep: char)
    ensures Join(Split(s, sep), [sep]) == s
  {
    if s != [] {
      var rest := Split(s[1..], sep);
      JoinSplit(s[1..], sep);
      if s[0] == sep {
        var parts := [""] + rest;
        assert parts[1..] == rest;
        assert s == [sep] + s[1..];
      } else {
        var parts := [[s[0]] + rest[0]] + rest[1..];
        assert parts[1..] == rest[1..];
        if |rest| == 1 {
          assert Join(rest, [sep]) == rest[0];
        } else {
          assert Join(rest, [sep]) == rest[0] + [sep] + Join(rest[1..], [sep]);
        }
        assert s == [s[0]] + s[1..];
      }
    }
  }

  /** `os.path.basename` on POSIX: the text after the last `/`. */
  function Basename(path: string): (r: string)
    ensures |r| <= |path| && r == path[|path| - |r|..]
    ensures '/' !in r
    ensures |r| < |path| ==> path[|path| - |r| - 1] == '/'
  {
    if path == [] || path[|path| - 1] == '/' then []
    else Basename(path[..|path| - 1]) + [path[|path| - 1]]
  }
}
