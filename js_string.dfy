/** The JavaScript String built-ins the services rely on, over Dafny strings:
    `trim`, `split` and `join` with a one-character separator, `includes`,
    and a global one-character `replace`. */
module JsString {

  /** The characters ECMAScript's `trim` and `parseInt` skip: WhiteSpace
      (tab, vertical tab, form feed, space, no-break space, the byte order mark
      and the Unicode space separators) and LineTerminator. */
  predicate IsWhiteSpace(c: char) {
    || c == '\t' || c == '\n' || c == '\U{000B}' || c == '\U{000C}' || c == '\r'
    || c == ' ' || c == '\U{00A0}' || c == '\U{1680}'
    || ('\U{2000}' <= c <= '\U{200A}')
    || c == '\U{2028}' || c == '\U{2029}' || c == '\U{202F}' || c == '\U{205F}'
    || c == '\U{3000}' || c == '\U{FEFF}'
  }

  /** `s` with its leading white space removed. */
  function TrimStart(s: string): (r: string)
    ensures |r| <= |s| && r == s[|s| - |r|..]
    ensures forall k :: 0 <= k < |s| - |r| ==> IsWhiteSpace(s[k])
    ensures r == [] || !IsWhiteSpace(r[0])
  {
    if s != [] && IsWhiteSpace(s[0]) then TrimStart(s[1..]) else s
  }

  /** `s` with its trailing white space removed. */
  function TrimEnd(s: string): (r: string)
    ensures |r| <= |s| && r == s[..|r|]
    ensures forall k :: |r| <= k < |s| ==> IsWhiteSpace(s[k])
    ensures r == [] || !IsWhiteSpace(r[|r| - 1])
  {
    if s != [] && IsWhiteSpace(s[|s| - 1]) then TrimEnd(s[..|s| - 1]) else s
  }

  /** `String.prototype.trim`. */
  function Trim(s: string): (r: string)
  {
    TrimEnd(TrimStart(s))
  }

  /** The trimmed string starts and ends with a character that is not white space. */
  lemma TrimEnds(s: string)
    ensures var r := Trim(s); r == [] || (!IsWhiteSpace(r[0]) && !IsWhiteSpace(r[|r| - 1]))
  {
    var t := TrimStart(s);
    var r := TrimEnd(t);
    if r != [] {
      assert r[0] == t[0];
    }
  }

  /** Trimming twice is trimming once. */
  lemma TrimIdempotent(s: string)
    ensures Trim(Trim(s)) == Trim(s)
  {
    TrimEnds(s);
    TrimNoOp(Trim(s));
  }

  /** A string with no white space at either end is its own trim. */
  lemma TrimNoOp(s: string)
    requires s == [] || (!IsWhiteSpace(s[0]) && !IsWhiteSpace(s[|s| - 1]))
    ensures Trim(s) == s
  {
  }

  /** The first index of `c` in `s`. */
  function IndexOf(s: string, c: char): (i: nat)
    requires c in s
    ensures i < |s| && s[i] == c && c !in s[..i]
  {
    if s[0] == c then 0 else 1 + IndexOf(s[1..], c)
  }

  /** The last index of `c` in `s`. */
  function LastIndexOf(s: string, c: char): (i: nat)
    requires c in s
    ensures i < |s| && s[i] == c && c !in s[i + 1..]
  {
    if s[|s| - 1] == c then |s| - 1 else LastIndexOf(s[..|s| - 1], c)
  }

  /** `s.split(sep)` for a one-character separator: the maximal pieces
      between separators, always at least one (an empty string gives [""]). */
  function Split(s: string, sep: char): (fields: seq<string>)
    ensures |fields| >= 1
    decreases |s|
  {
    if sep !in s then [s]
    else
      var i := IndexOf(s, sep);
      [s[..i]] + Split(s[i + 1..], sep)
  }

  /** There is more than one piece exactly when the separator occurs. */
  lemma SplitCount(s: string, sep: char)
    ensures |Split(s, sep)| >= 2 <==> sep in s
  {
    if sep in s {
      SplitFirst(s, sep);
    }
  }

  /** No piece contains the separator. */
  lemma {:induction false} SplitFieldsFree(s: string, sep: char)
    ensures forall k :: 0 <= k < |Split(s, sep)| ==> sep !in Split(s, sep)[k]
    decreases |s|
  {
    if sep in s {
      SplitFirst(s, sep);
      SplitFieldsFree(s[IndexOf(s, sep) + 1..], sep);
    }
  }

  /** Joining the pieces with the separator gives the string back. */
  lemma {:induction false} JoinSplit(s: string, sep: char)
    ensures Join(Split(s, sep), sep) == s
    decreases |s|
  {
    if sep in s {
      var i := IndexOf(s, sep);
      SplitFirst(s, sep);
      JoinSplit(s[i + 1..], sep);
      JoinCons(s[..i], Split(s[i + 1..], sep), sep);
      assert s == s[..i] + [sep] + s[i + 1..];
    }
  }

  /** `fields.join(sep)` (and `[].join(sep)` is ""). */
  function Join(fields: seq<string>, sep: char): string
  {
    if |fields| == 0 then []
    else if |fields| == 1 then fields[0]
    else fields[0] + [sep] + Join(fields[1..], sep)
  }

  /** Splitting a join of separator-free fields gives the fields back. */
  lemma {:induction false} SplitJoin(fields: seq<string>, sep: char)
    requires |fields| >= 1
    requires forall k :: 0 <= k < |fields| ==> sep !in fields[k]
    ensures Split(Join(fields, sep), sep) == fields
  {
    if |fields| > 1 {
      var s := Join(fields, sep);
      var rest := Join(fields[1..], sep);
      assert s == fields[0] + [sep] + rest;
      assert s[|fields[0]|] == sep;
      assert s[..|fields[0]|] == fields[0];
      assert IndexOf(s, sep) == |fields[0]|;
      assert s[|fields[0]| + 1..] == rest;
      SplitJoin(fields[1..], sep);
    }
  }

  /** Joining all fields but the last gives every character before the last
      separator (none when there is no separator). */
  lemma JoinAllButLast(s: string, sep: char)
    ensures var f := Split(s, sep);
      Join(f[..|f| - 1], sep) == if sep in s then s[..LastIndexOf(s, sep)] else []
  {
    var f := Split(s, sep);
    if sep in s {
      SplitCount(s, sep);
      var init := Join(f[..|f| - 1], sep);
      var last := f[|f| - 1];
      JoinSnoc(f, sep);
      JoinSplit(s, sep);
      SplitFieldsFree(s, sep);
      assert sep !in last;
      ConcatParts(s, init, sep, last);
      LastIsFirst(s, sep, |init|);
    }
  }

  lemma ConcatParts(s: string, a: string, c: char, b: string)
    requires s == a + [c] + b
    ensures |a| < |s| && s[|a|] == c && s[|a| + 1..] == b && s[..|a|] == a
  {
  }

  /** A join of two or more fields ends with the separator and the last field. */
  lemma {:induction false} JoinSnoc(f: seq<string>, sep: char)
    requires |f| >= 2
    ensures Join(f, sep) == Join(f[..|f| - 1], sep) + [sep] + f[|f| - 1]
  {
    var init := f[..|f| - 1];
    if |f| == 2 {
      assert init == [f[0]];
    } else {
      var t := f[1..];
      JoinSnoc(t, sep);
      assert t[..|t| - 1] == init[1..];
      assert init[0] == f[0];
    }
  }

  lemma SplitFirst(s: string, sep: char)
    requires sep in s
    ensures Split(s, sep) == [s[..IndexOf(s, sep)]] + Split(s[IndexOf(s, sep) + 1..], sep)
  {
  }

  lemma JoinCons(a: string, g: seq<string>, sep: char)
    requires |g| >= 1
    ensures Join([a] + g, sep) == a + [sep] + Join(g, sep)
  {
    assert ([a] + g)[1..] == g;
  }

  lemma {:induction false} LastIsFirst(s: string, sep: char, i: nat)
    requires i < |s| && s[i] == sep && sep !in s[i + 1..]
    ensures LastIndexOf(s, sep) == i
    decreases |s|
  {
    if i < |s| - 1 {
      assert s[|s| - 1] == s[i + 1..][|s| - 2 - i];
      assert s[..|s| - 1][i + 1..] == s[i + 1..|s| - 1];
      LastIsFirst(s[..|s| - 1], sep, i);
    }
  }

  /** `sub` occurs in `s` starting at index `i`. */
  predicate OccursAt(s: string, sub: string, i: int) {
    0 <= i <= |s| - |sub| && s[i..i + |sub|] == sub
  }

  /** `s.includes(sub)`. */
  predicate Contains(s: string, sub: string) {
    exists i :: 0 <= i <= |s| - |sub| && OccursAt(s, sub, i)
  }

  /** Whatever contains a string contains every piece of it. */
  lemma ContainsPiece(s: string, sub: string, i: nat, j: nat)
    requires Contains(s, sub) && i <= j <= |sub|
    ensures Contains(s, sub[i..j])
  {
    var k :| 0 <= k <= |s| - |sub| && OccursAt(s, sub, k);
    assert s[k..k + |sub|] == sub;
    forall m | 0 <= m < j - i ensures s[k + i..k + j][m] == sub[i..j][m] {
      assert s[k + i + m] == s[k..k + |sub|][i + m];
    }
    assert s[k + i..k + j] == sub[i..j];
    assert OccursAt(s, sub[i..j], k + i);
  }

  /** `s.replace(/c/g, d)` for single characters `c` and `d`. */
  function ReplaceAll(s: string, c: char, d: char): (r: string)
    ensures |r| == |s|
    ensures forall k :: 0 <= k < |s| ==> r[k] == if s[k] == c then d else s[k]
  {
    if s == [] then [] else [if s[0] == c then d else s[0]] + ReplaceAll(s[1..], c, d)
  }

  /** `s.replace(/c+$/, '')`: every trailing `c` removed. */
  function StripTrailing(s: string, c: char): (r: string)
    ensures |r| <= |s| && r == s[..|r|]
    ensures forall k :: |r| <= k < |s| ==> s[k] == c
    ensures r == [] || r[|r| - 1] != c
  {
    if s != [] && s[|s| - 1] == c then StripTrailing(s[..|s| - 1], c) else s
  }
}
