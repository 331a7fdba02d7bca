/**
  The Python string primitives the scripts rely on, over `string` (a sequence of
  Unicode scalar values): `isspace`, `strip()`, `strip(chars)`, `split(sep)`,
  `count`, `join`, and `replace` of the two-character sequence backslash-`n`.
 */
module Text {

  /** Python's `str.isspace()` for one character; `\s` in a `str` regular expression
      matches the same set. */
  predicate IsSpace(c: char) {
    c == ' ' || ('\t' <= c <= '\r') || ('\U{1C}' <= c <= '\U{1F}')
    || c == '\U{85}' || c == '\U{A0}' || c == '\U{1680}'
    || ('\U{2000}' <= c <= '\U{200A}') || c == '\U{2028}' || c == '\U{2029}'
    || c == '\U{202F}' || c == '\U{205F}' || c == '\U{3000}'
  }

  predicate IsPipe(c: char) { c == '|' }

  /** Every character is whitespace: what Python's `not s.strip()` tests. */
  predicate IsBlank(s: string) {
    forall k :: 0 <= k < |s| ==> IsSpace(s[k])
  }

  /** No whitespace at either end: what `strip()` produces. */
  predicate IsTrimmed(s: string) {
    s == [] || (!IsSpace(s[0]) && !IsSpace(s[|s| - 1]))
  }

  /** The part of `s` after its longest prefix of characters satisfying `drop`. */
  function TrimStart(s: string, drop: char -> bool): (r: string)
    ensures |r| <= |s| && r == s[|s| - |r|..]
    ensures r == [] || !drop(r[0])
  {
    if s != [] && drop(s[0]) then TrimStart(s[1..], drop) else s
  }

  /** Everything `TrimStart` removes satisfies `drop`. */
  lemma {:induction false} TrimStartDropped(s: string, drop: char -> bool)
    ensures forall k :: 0 <= k < |s| - |TrimStart(s, drop)| ==> drop(s[k])
  {
    if s != [] && drop(s[0]) {
      TrimStartDropped(s[1..], drop);
      forall k | 1 <= k < |s| - |TrimStart(s, drop)| ensures drop(s[k]) {
        assert s[k] == s[1..][k - 1];
      }
    }
  }

  /** The part of `s` before its longest suffix of characters satisfying `drop`. */
  function TrimEnd(s: string, drop: char -> bool): (r: string)
    ensures |r| <= |s| && r == s[..|r|]
    ensures r == [] || !drop(r[|r| - 1])
  {
    if s != [] && drop(s[|s| - 1]) then TrimEnd(s[..|s| - 1], drop) else s
  }

  /** Everything `TrimEnd` removes satisfies `drop`. */
  lemma {:induction false} TrimEndDropped(s: string, drop: char -> bool)
    ensures forall k :: |TrimEnd(s, drop)| <= k < |s| ==> drop(s[k])
  {
    if s != [] && drop(s[|s| - 1]) {
      TrimEndDropped(s[..|s| - 1], drop);
    }
  }

  /** Where the text kept by `Trim` starts inside `s`. */
  function TrimOffset(s: string, drop: char -> bool): (off: nat)
    ensures off <= |s|
  {
    |s| - |TrimStart(s, drop)|
  }

  /** Python's `s.strip(chars)` where `drop` says which characters are in `chars`:
      what is left after removing `drop` characters at both ends. */
  function Trim(s: string, drop: char -> bool): (r: string)
    ensures |r| <= |s|
    ensures r == [] || (!drop(r[0]) && !drop(r[|r| - 1]))
  {
    TrimEnd(TrimStart(s, drop), drop)
  }

  /** What `Trim` keeps is a contiguous middle of `s`, and everything it removes on either
      side satisfies `drop`. */
  lemma {:induction false} TrimSlice(s: string, drop: char -> bool)
    ensures TrimOffset(s, drop) + |Trim(s, drop)| <= |s|
    ensures Trim(s, drop) == s[TrimOffset(s, drop)..TrimOffset(s, drop) + |Trim(s, drop)|]
    ensures forall k :: 0 <= k < TrimOffset(s, drop) ==> drop(s[k])
    ensures forall k :: TrimOffset(s, drop) + |Trim(s, drop)| <= k < |s| ==> drop(s[k])
  {
    var u := TrimStart(s, drop);
    var off := TrimOffset(s, drop);
    TrimStartDropped(s, drop);
    TrimEndDropped(u, drop);
    forall k | off + |Trim(s, drop)| <= k < |s| ensures drop(s[k]) {
      assert s[k] == u[k - off];
    }
  }

  /** Python's `s.strip()`. */
  function Strip(s: string): (r: string)
    ensures IsTrimmed(r)
    ensures |r| <= |s|
  {
    Trim(s, IsSpace)
  }

  /** Python's `s.strip('|')`. */
  function StripPipes(s: string): (r: string)
    ensures r == [] || (r[0] != '|' && r[|r| - 1] != '|')
  {
    Trim(s, IsPipe)
  }

  /** `strip()` of every element, as the scripts' `[c.strip() for c in ...]`. */
  function StripEach(parts: seq<string>): (r: seq<string>)
    ensures |r| == |parts|
    ensures forall i :: 0 <= i < |r| ==> r[i] == Strip(parts[i])
  {
    seq(|parts|, i requires 0 <= i < |parts| => Strip(parts[i]))
  }

  lemma {:induction false} StripEmptyIffBlank(s: string)
    ensures Strip(s) == [] <==> IsBlank(s)
  {
    var off := TrimOffset(s, IsSpace);
    var r := Strip(s);
    TrimSlice(s, IsSpace);
    if r == [] {
      forall k | 0 <= k < |s| ensures IsSpace(s[k]) {
        assert k < off || off + |r| <= k;
      }
    } else {
      assert !IsSpace(s[off]);
    }
  }

  /** Trimming leaves a string alone when neither end is to be dropped. */
  lemma {:induction false} TrimFixed(s: string, drop: char -> bool)
    requires s == [] || (!drop(s[0]) && !drop(s[|s| - 1]))
    ensures Trim(s, drop) == s
  {
    assert TrimStart(s, drop) == s;
    assert TrimEnd(s, drop) == s;
  }

  /** `strip()` leaves an already trimmed string alone. */
  lemma {:induction false} StripTrimmed(s: string)
    requires IsTrimmed(s)
    ensures Strip(s) == s
  {
    TrimFixed(s, IsSpace);
  }

  lemma {:induction false} StripIdempotent(s: string)
    ensures Strip(Strip(s)) == Strip(s)
  {
    StripTrimmed(Strip(s));
  }

  /** Whitespace added at the front does not change `strip()`. */
  lemma {:induction false} StripConsSpace(c: char, s: string)
    requires IsSpace(c)
    ensures Strip([c] + s) == Strip(s)
  {
    assert ([c] + s)[1..] == s;
  }

  /** A character added at the back survives `TrimStart` when some character of `s`
      (the one at `k`) is kept. */
  lemma {:induction false} TrimStartSnoc(s: string, c: char, drop: char -> bool, k: nat)
    requires k < |s| && !drop(s[k])
    ensures TrimStart(s + [c], drop) == TrimStart(s, drop) + [c]
  {
    var t := s + [c];
    assert t[0] == s[0];
    if drop(s[0]) {
      assert t[1..] == s[1..] + [c];
      assert s[1..][k - 1] == s[k];
      TrimStartSnoc(s[1..], c, drop, k - 1);
      assert TrimStart(t, drop) == TrimStart(t[1..], drop);
    } else {
      assert TrimStart(t, drop) == t;
    }
  }


  /** Whitespace added at the back does not change `strip()`. */
  lemma {:induction false} StripSnocSpace(s: string, c: char)
    requires IsSpace(c)
    ensures Strip(s + [c]) == Strip(s)
  {
    if IsBlank(s) {
      StripEmptyIffBlank(s);
      assert IsBlank(s + [c]);
      StripEmptyIffBlank(s + [c]);
    } else {
      var u := TrimStart(s, IsSpace);
      var k :| 0 <= k < |s| && !IsSpace(s[k]);
      calc {
        Strip(s + [c]);
        TrimEnd(TrimStart(s + [c], IsSpace), IsSpace);
        { TrimStartSnoc(s, c, IsSpace, k); }
        TrimEnd(u + [c], IsSpace);
        { assert (u + [c])[..|u|] == u; }
        TrimEnd(u, IsSpace);
      }
    }
  }

  /** Number of occurrences of `c` in `s`. */
  function Count(s: string, c: char): nat
  {
    if s == [] then 0 else (if s[0] == c then 1 else 0) + Count(s[1..], c)
  }

  /** `sep.join(parts)`. */
  function Join(parts: seq<string>, sep: string): string
  {
    if |parts| == 0 then []
    else if |parts| == 1 then parts[0]
    else parts[0] + sep + Join(parts[1..], sep)
  }

  /** A join begins with its first piece. */
  lemma {:induction false} JoinFirst(parts: seq<string>, sep: string)
    requires |parts| >= 1
    ensures parts[0] <= Join(parts, sep)
  {
    if |parts| > 1 {
      assert Join(parts, sep) == parts[0] + (sep + Join(parts[1..], sep));
    }
  }

  /** A join ends with its last piece. */
  lemma {:induction false} JoinLast(parts: seq<string>, sep: string)
    requires |parts| >= 1
    ensures var j := Join(parts, sep); var l := parts[|parts| - 1];
      |l| <= |j| && j[|j| - |l|..] == l
  {
    if |parts| > 1 {
      JoinLast(parts[1..], sep);
      assert parts[1..][|parts[1..]| - 1] == parts[|parts| - 1];
      var rest := Join(parts[1..], sep);
      assert Join(parts, sep) == (parts[0] + sep) + rest;
    }
  }

  /** `strip()` only removes characters: whatever it leaves was in the string. */
  lemma {:induction false} StripKeeps(s: string, c: char)
    requires c in Strip(s)
    ensures c in s
  {
    var off := TrimOffset(s, IsSpace);
    var r := Strip(s);
    TrimSlice(s, IsSpace);
    var k :| 0 <= k < |r| && r[k] == c;
    assert s[off + k] == c;
  }

  /** Stripping every piece of an already trimmed list changes nothing. */
  lemma {:induction false} StripEachTrimmed(parts: seq<string>)
    requires forall i :: 0 <= i < |parts| ==> IsTrimmed(parts[i])
    ensures StripEach(parts) == parts
  {
    forall i | 0 <= i < |parts| ensures StripEach(parts)[i] == parts[i] {
      StripTrimmed(parts[i]);
    }
  }

  /** Python's `s.split(d)` for a one-character separator: at least one piece, one more
      than there are separators, none containing the separator; `SplitThenJoin` shows
      that joining the pieces with the separator gives `s` back. */
  function Split(s: string, d: char): (r: seq<string>)
    ensures |r| == 1 + Count(s, d)
    ensures forall i :: 0 <= i < |r| ==> d !in r[i]
  {
    if s == [] then [[]]
    else
      var rest := Split(s[1..], d);
      if s[0] == d then [[]] + rest
      else
        assert s == [s[0]] + s[1..];
        [[s[0]] + rest[0]] + rest[1..]
  }

  lemma {:induction false} SplitNoSeparator(a: string, d: char)
    requires d !in a
    ensures Split(a, d) == [a]
  {
    if a != [] {
      assert d !in a[1..];
      SplitNoSeparator(a[1..], d);
      assert a == [a[0]] + a[1..];
    }
  }

  lemma {:induction false} SplitAfterPiece(a: string, b: string, d: char)
    requires d !in a
    ensures Split(a + [d] + b, d) == [a] + Split(b, d)
  {
    if a == [] {
      assert (a + [d] + b)[1..] == b;
    } else {
      assert (a + [d] + b)[1..] == a[1..] + [d] + b;
      assert d !in a[1..];
      SplitAfterPiece(a[1..], b, d);
      assert a == [a[0]] + a[1..];
    }
  }

  /** Joining the pieces of a one-character split with the separator gives the text back. */
  lemma {:induction false} SplitThenJoin(s: string, d: char)
    ensures Join(Split(s, d), [d]) == s
  {
    if s != [] {
      var rest := Split(s[1..], d);
      SplitThenJoin(s[1..], d);
      if s[0] == d {
        JoinCons([], rest, [d]);
        assert s == [d] + s[1..];
      } else {
        JoinHeadExtend(s[0], rest, [d]);
        assert s == [s[0]] + s[1..];
      }
    }
  }

  /** Splitting undoes joining: the pieces come back exactly. */
  lemma {:induction false} SplitJoin(parts: seq<string>, d: char)
    requires |parts| >= 1
    requires forall i :: 0 <= i < |parts| ==> d !in parts[i]
    ensures Split(Join(parts, [d]), d) == parts
  {
    if |parts| == 1 {
      SplitNoSeparator(parts[0], d);
    } else {
      SplitJoin(parts[1..], d);
      assert Join(parts, [d]) == parts[0] + [d] + Join(parts[1..], [d]);
      SplitAfterPiece(parts[0], Join(parts[1..], [d]), d);
      assert parts == [parts[0]] + parts[1..];
    }
  }

  /** The pieces after appending `c` to a string split into `p`. */
  function AppendToPieces(p: seq<string>, c: char, d: char): seq<string>
    requires |p| >= 1
  {
    if c == d then p + [[]] else p[..|p| - 1] + [p[|p| - 1] + [c]]
  }

  lemma {:induction false} AppendToPiecesCons(a: string, p: seq<string>, c: char, d: char)
    requires |p| >= 1
    ensures AppendToPieces([a] + p, c, d) == [a] + AppendToPieces(p, c, d)
  {
    if c != d {
      assert ([a] + p)[..|p|] == [a] + p[..|p| - 1];
    }
  }

  lemma {:induction false} AppendToPiecesExtendHead(x: char, p: seq<string>, c: char, d: char)
    requires |p| >= 1
    ensures var q := AppendToPieces(p, c, d);
      AppendToPieces([[x] + p[0]] + p[1..], c, d) == [[x] + q[0]] + q[1..]
  {
    var q := AppendToPieces(p, c, d);
    var n := |p|;
    if c == d {
      assert q[0] == p[0] && q[1..] == p[1..] + [[]];
    } else if n == 1 {
      assert q == [p[0] + [c]];
      assert [x] + q[0] == ([x] + p[0]) + [c];
    } else {
      assert q[0] == p[0] && q[1..] == p[1..n - 1] + [p[n - 1] + [c]];
      assert ([[x] + p[0]] + p[1..])[..n - 1] == [[x] + p[0]] + p[1..n - 1];
    }
  }

  /** How `split` changes when one character is appended. */
  lemma {:induction false} SplitSnoc(s: string, c: char, d: char)
    ensures Split(s + [c], d) == AppendToPieces(Split(s, d), c, d)
  {
    if s == [] {
      assert s + [c] == [c];
      assert ([c])[1..] == [];
      assert Split([], d) == [[]];
      if c == d {
        assert Split([c], d) == [[]] + [[]];
      } else {
        assert Split([c], d) == [[c] + []] + [];
        assert [c] + [] == [c];
        assert [[c] + []] + [] == [[c]];
        assert AppendToPieces([[]], c, d) == [] + [[] + [c]];
        assert [] + [c] == [c];
        assert [] + [[] + [c]] == [[c]];
      }
    } else {
      var q := Split(s[1..], d);
      assert (s + [c])[1..] == s[1..] + [c];
      SplitSnoc(s[1..], c, d);
      if s[0] == d {
        assert Split(s, d) == [[]] + q;
        AppendToPiecesCons([], q, c, d);
      } else {
        assert Split(s, d) == [[s[0]] + q[0]] + q[1..];
        AppendToPiecesExtendHead(s[0], q, c, d);
      }
    }
  }

  /** Position of the first `c` in `s`, as `s.index(c)`. */
  function IndexOf(s: string, c: char): (i: nat)
    requires c in s
    ensures i < |s| && s[i] == c && c !in s[..i]
  {
    if s[0] == c then 0
    else
      var i := 1 + IndexOf(s[1..], c);
      assert s[..i] == [s[0]] + s[1..][..i - 1];
      i
  }

  /** Python's `s.split(d, 1)`: at most one cut, at the first `d`. */
  function SplitOnce(s: string, d: char): (r: seq<string>)
    ensures d !in s ==> r == [s]
    ensures d in s ==> |r| == 2 && r[0] + [d] + r[1] == s && d !in r[0]
  {
    if d !in s then [s]
    else
      var i := IndexOf(s, d);
      assert s == s[..i] + [d] + s[i + 1..];
      [s[..i], s[i + 1..]]
  }

  /** The cut falls exactly after a leading piece that holds no `d`, whatever follows. */
  lemma {:induction false} SplitOnceAfter(a: string, d: char, b: string)
    requires d !in a
    ensures SplitOnce(a + [d] + b, d) == [a, b]
  {
    var s := a + [d] + b;
    assert s[|a|] == d;
    var r := SplitOnce(s, d);
    var i := |r[0]|;
    assert s[..i] == r[0];
    assert r[0] == a;
    assert r[1] == s[|a| + 1..] == b;
  }

  /** Whether the two-character sequence backslash-`n` starts at index `k`. */
  predicate EscapedNewlineAt(s: string, k: int) {
    0 <= k && k + 1 < |s| && s[k] == '\\' && s[k + 1] == 'n'
  }

  /** `s` contains no backslash-`n`. */
  predicate NoEscapedNewline(s: string) {
    forall k :: 0 <= k < |s| ==> !EscapedNewlineAt(s, k)
  }

  /** Python's `s.count('\\n')`: the number of positions where backslash-`n` starts
      (two occurrences can never overlap, since `n` is not a backslash). */
  function EscapedNewlineCount(s: string): nat
  {
    if s == [] then 0 else (if EscapedNewlineAt(s, 0) then 1 else 0) + EscapedNewlineCount(s[1..])
  }

  /** Python's `s.split('\\n')`, the separator being backslash followed by `n`:
      one more piece than occurrences. */
  function SplitEscapedNewline(s: string): (r: seq<string>)
    ensures |r| == 1 + EscapedNewlineCount(s)
  {
    if s == [] then [[]]
    else if EscapedNewlineAt(s, 0) then
      EscapedNewlineCountSkip(s);
      [[]] + SplitEscapedNewline(s[2..])
    else
      var rest := SplitEscapedNewline(s[1..]);
      [[s[0]] + rest[0]] + rest[1..]
  }

  /** The first piece is what precedes the first backslash-`n`. */
  lemma {:induction false} SplitEscapedNewlineHead(s: string)
    ensures var r := SplitEscapedNewline(s); |r[0]| <= |s| && r[0] == s[..|r[0]|]
  {
    if s != [] && !EscapedNewlineAt(s, 0) {
      SplitEscapedNewlineHead(s[1..]);
      var rest := SplitEscapedNewline(s[1..]);
      assert [s[0]] + rest[0] == s[..1 + |rest[0]|];
    }
  }

  /** No piece holds a backslash-`n`. */
  lemma {:induction false} SplitEscapedNewlinePieces(s: string)
    ensures forall i :: 0 <= i < |SplitEscapedNewline(s)| ==> NoEscapedNewline(SplitEscapedNewline(s)[i])
  {
    if s != [] {
      if EscapedNewlineAt(s, 0) {
        SplitEscapedNewlinePieces(s[2..]);
      } else {
        var rest := SplitEscapedNewline(s[1..]);
        SplitEscapedNewlinePieces(s[1..]);
        SplitEscapedNewlineHead(s[1..]);
        assert rest[0] != [] ==> rest[0][0] == s[1];
        ConsNoEscapedNewline(s[0], rest[0]);
      }
    }
  }

  /** Joining the pieces with backslash-`n` gives the text back. */
  lemma {:induction false} SplitEscapedNewlineJoin(s: string)
    ensures Join(SplitEscapedNewline(s), "\\n") == s
  {
    if s != [] {
      if EscapedNewlineAt(s, 0) {
        var rest := SplitEscapedNewline(s[2..]);
        SplitEscapedNewlineJoin(s[2..]);
        JoinCons([], rest, "\\n");
        assert s == "\\n" + s[2..];
      } else {
        var rest := SplitEscapedNewline(s[1..]);
        SplitEscapedNewlineJoin(s[1..]);
        JoinHeadExtend(s[0], rest, "\\n");
        assert s == [s[0]] + s[1..];
      }
    }
  }

  /** A character put in front of a piece without backslash-`n` creates none, unless it
      is a backslash before an `n`. */
  lemma {:induction false} ConsNoEscapedNewline(c: char, p: string)
    requires NoEscapedNewline(p)
    requires p == [] || c != '\\' || p[0] != 'n'
    ensures NoEscapedNewline([c] + p)
  {
    var h := [c] + p;
    forall k | 0 <= k < |h| ensures !EscapedNewlineAt(h, k) {
      if k > 0 {
        assert !EscapedNewlineAt(p, k - 1);
      }
    }
  }

  lemma {:induction false} EscapedNewlineCountSkip(s: string)
    requires EscapedNewlineAt(s, 0)
    ensures EscapedNewlineCount(s) == 1 + EscapedNewlineCount(s[2..])
  {
    assert !EscapedNewlineAt(s[1..], 0);
    assert s[1..][1..] == s[2..];
  }

  /** Python's `s.replace('\\n', '\n')`: every backslash-`n` becomes one newline. */
  function ReplaceEscapedNewlines(s: string): (r: string)
    ensures |r| == |s| - EscapedNewlineCount(s)
    ensures r == Join(SplitEscapedNewline(s), "\n")
    ensures s != [] ==> r != [] && r[0] == (if EscapedNewlineAt(s, 0) then '\n' else s[0])
  {
    if s == [] then []
    else if EscapedNewlineAt(s, 0) then
      EscapedNewlineCountSkip(s);
      JoinCons([], SplitEscapedNewline(s[2..]), "\n");
      "\n" + ReplaceEscapedNewlines(s[2..])
    else
      var rest := SplitEscapedNewline(s[1..]);
      JoinHeadExtend(s[0], rest, "\n");
      [s[0]] + ReplaceEscapedNewlines(s[1..])
  }

  lemma {:induction false} JoinCons(a: string, rest: seq<string>, sep: string)
    requires |rest| >= 1
    ensures Join([a] + rest, sep) == a + sep + Join(rest, sep)
  {
    assert ([a] + rest)[1..] == rest;
  }

  lemma {:induction false} JoinHeadExtend(c: char, parts: seq<string>, sep: string)
    requires |parts| >= 1
    ensures Join([[c] + parts[0]] + parts[1..], sep) == [c] + Join(parts, sep)
  {
    var q := [[c] + parts[0]] + parts[1..];
    if |parts| > 1 {
      assert q[1..] == parts[1..];
    }
  }

  /** Without a backslash-`n` the string is one piece: a real newline does not cut it. */
  lemma {:induction false} SplitWithoutEscapes(s: string)
    requires NoEscapedNewline(s)
    ensures SplitEscapedNewline(s) == [s]
  {
    if s != [] {
      assert !EscapedNewlineAt(s, 0);
      assert NoEscapedNewline(s[1..]) by {
        forall k | 0 <= k < |s[1..]| ensures !EscapedNewlineAt(s[1..], k) {
          assert !EscapedNewlineAt(s, k + 1);
        }
      }
      SplitWithoutEscapes(s[1..]);
      assert s == [s[0]] + s[1..];
    }
  }

  /** Nothing but the backslash-`n` pairs changes: a string without one comes back as is. */
  lemma {:induction false} ReplaceWithoutEscapes(s: string)
    requires NoEscapedNewline(s)
    ensures ReplaceEscapedNewlines(s) == s
  {
    if s != [] {
      assert !EscapedNewlineAt(s, 0);
      assert NoEscapedNewline(s[1..]) by {
        forall k | 0 <= k < |s[1..]| ensures !EscapedNewlineAt(s[1..], k) {
          assert !EscapedNewlineAt(s, k + 1);
        }
      }
      ReplaceWithoutEscapes(s[1..]);
      assert s == [s[0]] + s[1..];
    }
  }

  /** No backslash-`n` survives the rewrite: a newline never follows as `n`. */
  lemma {:induction false} ReplaceLeavesNoEscapes(s: string)
    ensures NoEscapedNewline(ReplaceEscapedNewlines(s))
  {
    if s != [] {
      var r := ReplaceEscapedNewlines(s);
      if EscapedNewlineAt(s, 0) {
        ReplaceLeavesNoEscapes(s[2..]);
        var t := ReplaceEscapedNewlines(s[2..]);
        assert r == "\n" + t;
        forall k | 0 <= k < |r| ensures !EscapedNewlineAt(r, k) {
          if k > 0 { assert !EscapedNewlineAt(t, k - 1); }
        }
      } else {
        ReplaceLeavesNoEscapes(s[1..]);
        var t := ReplaceEscapedNewlines(s[1..]);
        assert r == [s[0]] + t;
        forall k | 0 <= k < |r| ensures !EscapedNewlineAt(r, k) {
          if k > 0 {
            assert !EscapedNewlineAt(t, k - 1);
          } else if 1 < |r| && s[0] == '\\' {
            assert r[1] == t[0];
          }
        }
      }
    }
  }
}
