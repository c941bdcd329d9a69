/** The JavaScript string built-ins that the form's text format is built from:
    `String.prototype.trim`, `replace` with a one-character global pattern,
    `split` on a one-character separator and `Array.prototype.join`. */
module Strings {

  /** The characters `String.prototype.trim` removes: the WhiteSpace and
      LineTerminator productions of ECMAScript (sections 12.2 and 12.3). */
  predicate IsSpace(c: char) {
    || c == '\t' || c == '\n' || c == '\U{000B}' || c == '\U{000C}' || c == '\r'
    || c == ' ' || c == '\U{00A0}' || c == '\U{1680}'
    || ('\U{2000}' <= c <= '\U{200A}')
    || c == '\U{2028}' || c == '\U{2029}' || c == '\U{202F}' || c == '\U{205F}'
    || c == '\U{3000}' || c == '\U{FEFF}'
  }

  predicate AllSpace(s: string) {
    forall i :: 0 <= i < |s| ==> IsSpace(s[i])
  }

  /** No white space at either end. */
  predicate Trimmed(s: string) {
    s == [] || (!IsSpace(s[0]) && !IsSpace(s[|s| - 1]))
  }

  /** White space dropped at the front. */
  function TrimStart(s: string): (r: string)
    ensures |r| <= |s|
    ensures r == [] || !IsSpace(r[0])
  {
    if |s| > 0 && IsSpace(s[0]) then TrimStart(s[1..]) else s
  }

  /** What `TrimStart` drops is white space and what it keeps is a suffix. */
  lemma {:induction false} TrimStartDrops(s: string)
    ensures var r := TrimStart(s);
            r == s[|s| - |r|..] && AllSpace(s[..|s| - |r|])
  {
    if |s| > 0 && IsSpace(s[0]) {
      TrimStartDrops(s[1..]);
      var r := TrimStart(s[1..]);
      assert s[1..][|s| - 1 - |r|..] == s[|s| - |r|..];
      assert s[..|s| - |r|] == [s[0]] + s[1..][..|s| - 1 - |r|];
    }
  }

  /** White space dropped at the back. */
  function TrimEnd(s: string): (r: string)
    ensures |r| <= |s|
    ensures r == [] || !IsSpace(r[|r| - 1])
  {
    if |s| > 0 && IsSpace(s[|s| - 1]) then TrimEnd(s[..|s| - 1]) else s
  }

  /** What `TrimEnd` drops is white space and what it keeps is a prefix. */
  lemma {:induction false} TrimEndDrops(s: string)
    ensures var r := TrimEnd(s);
            r == s[..|r|] && AllSpace(s[|r|..])
  {
    if |s| > 0 && IsSpace(s[|s| - 1]) {
      TrimEndDrops(s[..|s| - 1]);
      var r := TrimEnd(s[..|s| - 1]);
      assert s[..|s| - 1][..|r|] == s[..|r|];
      assert s[|r|..] == s[..|s| - 1][|r|..] + [s[|s| - 1]];
    }
  }

  /** `String.prototype.trim`: white space dropped at both ends. */
  function Trim(s: string): (r: string)
    ensures |r| <= |s|
    ensures Trimmed(r)
  {
    var t := TrimStart(s);
    TrimEndDrops(t);
    TrimEnd(t)
  }

  /** Trimming brings in no character that was not there. */
  lemma TrimKeepsAbsent(s: string, c: char)
    requires c !in s
    ensures c !in Trim(s)
  {
    var t := TrimStart(s);
    TrimStartDrops(s);
    TrimEndDrops(t);
    assert forall i :: 0 <= i < |t| ==> t[i] == s[|s| - |t| + i];
  }

  /** Trimming leaves a string without white space at its ends as it is. */
  lemma TrimOfTrimmed(s: string)
    requires Trimmed(s)
    ensures Trim(s) == s
  {
    if s != [] {
      assert TrimStart(s) == s;
      assert TrimEnd(s) == s;
    }
  }

  /** The trimmed string is empty exactly when the string is all white space. */
  lemma TrimEmpty(s: string)
    ensures Trim(s) == [] <==> AllSpace(s)
  {
    var t := TrimStart(s);
    var n := |s| - |t|;
    TrimStartDrops(s);
    TrimEndDrops(t);
    assert s == s[..n] + t;
    if Trim(s) == [] {
      assert t[0..] == t;
      assert t == [];
      assert s == s[..n];
    }
  }

  /** Trimming the front brings in no character that was not there. */
  lemma TrimStartKeepsAbsent(s: string, c: char)
    requires c !in s
    ensures c !in TrimStart(s)
  {
    var t := TrimStart(s);
    TrimStartDrops(s);
    assert forall i :: 0 <= i < |t| ==> t[i] == s[|s| - |t| + i];
  }

  /** Trimming the back brings in no character that was not there. */
  lemma TrimEndKeepsAbsent(s: string, c: char)
    requires c !in s
    ensures c !in TrimEnd(s)
  {
    var t := TrimEnd(s);
    TrimEndDrops(s);
    assert forall i :: 0 <= i < |t| ==> t[i] == s[i];
  }

  /** A character that is not white space stops `TrimStart`: it and
      everything after it stay. */
  lemma {:induction false} TrimStartBefore(a: string, c: char, b: string)
    requires !IsSpace(c)
    ensures TrimStart(a + [c] + b) == TrimStart(a) + [c] + b
  {
    if a == [] {
      assert a + [c] + b == [c] + b;
    } else {
      assert (a + [c] + b)[0] == a[0];
      assert (a + [c] + b)[1..] == a[1..] + [c] + b;
      TrimStartBefore(a[1..], c, b);
    }
  }

  /** A character that is not white space stops `TrimEnd`: it and
      everything before it stay. */
  lemma {:induction false} TrimEndAfter(a: string, c: char, b: string)
    requires !IsSpace(c)
    ensures TrimEnd(a + [c] + b) == a + [c] + TrimEnd(b)
  {
    if b == [] {
      assert a + [c] + b == a + [c];
    } else {
      var s := a + [c] + b;
      assert s[|s| - 1] == b[|b| - 1];
      assert s[..|s| - 1] == a + [c] + b[..|b| - 1];
      TrimEndAfter(a, c, b[..|b| - 1]);
    }
  }

  /** `TrimEnd` of a string with one more character in front: the
      character stays unless it is white space and nothing else stays. */
  lemma {:induction false} TrimEndCons(x: char, t: string)
    ensures TrimEnd([x] + t) == if IsSpace(x) && TrimEnd(t) == [] then [] else [x] + TrimEnd(t)
  {
    if t == [] {
      assert [x] + t == [x];
      assert [x][..0] == [];
    } else {
      var s := [x] + t;
      assert s[|s| - 1] == t[|t| - 1];
      assert s[..|s| - 1] == [x] + t[..|t| - 1];
      TrimEndCons(x, t[..|t| - 1]);
    }
  }

  /** Trimming the front and trimming the back commute. */
  lemma {:induction false} TrimStartEnd(s: string)
    ensures TrimStart(TrimEnd(s)) == TrimEnd(TrimStart(s))
  {
    if s != [] {
      assert s == [s[0]] + s[1..];
      TrimEndCons(s[0], s[1..]);
      if IsSpace(s[0]) {
        TrimStartEnd(s[1..]);
        var u := TrimEnd(s[1..]);
        if u != [] {
          assert ([s[0]] + u)[1..] == u;
        }
      }
    }
  }

  /** Trimming after trimming the front is trimming. */
  lemma TrimOfTrimStart(s: string)
    ensures Trim(TrimStart(s)) == Trim(s)
  {
    var r := TrimStart(s);
    assert TrimStart(r) == r;
  }

  /** Trimming after trimming the back is trimming. */
  lemma TrimOfTrimEnd(s: string)
    ensures Trim(TrimEnd(s)) == Trim(s)
  {
    TrimStartEnd(s);
    var r := TrimEnd(TrimStart(s));
    assert TrimEnd(r) == r;
  }

  /** `s.replace(/from/g, to)` for single characters. */
  function Replace(s: string, from: char, to: char): (r: string)
    ensures |r| == |s|
  {
    if s == [] then [] else [if s[0] == from then to else s[0]] + Replace(s[1..], from, to)
  }

  /** Every `from` becomes `to`, every other character stays. */
  lemma {:induction false} ReplaceAt(s: string, from: char, to: char)
    ensures forall i :: 0 <= i < |s| ==>
              Replace(s, from, to)[i] == if s[i] == from then to else s[i]
  {
    if s != [] {
      ReplaceAt(s[1..], from, to);
      var r := Replace(s, from, to);
      forall i | 1 <= i < |s| ensures r[i] == if s[i] == from then to else s[i] {
        assert r[i] == Replace(s[1..], from, to)[i - 1];
        assert s[i] == s[1..][i - 1];
      }
    }
  }

  lemma {:induction false} ReplaceAppend(a: string, b: string, from: char, to: char)
    ensures Replace(a + b, from, to) == Replace(a, from, to) + Replace(b, from, to)
  {
    if a == [] {
      assert a + b == b;
    } else {
      assert (a + b)[0] == a[0];
      assert (a + b)[1..] == a[1..] + b;
      ReplaceAppend(a[1..], b, from, to);
    }
  }

  lemma {:induction false} ReplaceAbsent(s: string, from: char, to: char)
    requires from !in s
    ensures Replace(s, from, to) == s
  {
    if s != [] {
      assert from !in s[1..] by { assert forall c :: c in s[1..] ==> c in s; }
      ReplaceAbsent(s[1..], from, to);
      assert [s[0]] + s[1..] == s;
    }
  }

  /** A character other than `to` that was not there is not there after. */
  lemma ReplaceKeepsAbsent(s: string, from: char, to: char, c: char)
    requires c != to && c !in s
    ensures c !in Replace(s, from, to)
  {
    ReplaceAt(s, from, to);
    var r := Replace(s, from, to);
    assert forall i :: 0 <= i < |r| ==> r[i] != c;
  }

  /** After the replacement no `from` is left, so replacing again changes nothing. */
  lemma ReplaceIdempotent(s: string, from: char, to: char)
    requires from != to
    ensures from !in Replace(s, from, to)
    ensures Replace(Replace(s, from, to), from, to) == Replace(s, from, to)
  {
    ReplaceAt(s, from, to);
    var r := Replace(s, from, to);
    assert forall i :: 0 <= i < |r| ==> r[i] != from;
    ReplaceAbsent(r, from, to);
  }

  /** Replacing one non-space character by another leaves the white space
      where it was, so it commutes with trimming at the front ... */
  lemma {:induction false} TrimStartReplace(s: string, from: char, to: char)
    requires !IsSpace(from) && !IsSpace(to)
    ensures TrimStart(Replace(s, from, to)) == Replace(TrimStart(s), from, to)
  {
    if |s| > 0 && IsSpace(s[0]) {
      TrimStartReplace(s[1..], from, to);
    }
  }

  /** ... and at the back. */
  lemma {:induction false} TrimEndReplace(s: string, from: char, to: char)
    requires !IsSpace(from) && !IsSpace(to)
    ensures TrimEnd(Replace(s, from, to)) == Replace(TrimEnd(s), from, to)
  {
    if s != [] {
      var init, last := s[..|s| - 1], s[|s| - 1];
      assert s == init + [last];
      ReplaceAppend(init, [last], from, to);
      var r := Replace(s, from, to);
      var rlast := if last == from then to else last;
      assert Replace([last], from, to) == [rlast];
      assert r == Replace(init, from, to) + [rlast];
      assert r[..|r| - 1] == Replace(init, from, to);
      assert r[|r| - 1] == rlast;
      if IsSpace(last) {
        TrimEndReplace(init, from, to);
      }
    }
  }

  lemma TrimReplace(s: string, from: char, to: char)
    requires !IsSpace(from) && !IsSpace(to)
    ensures Trim(Replace(s, from, to)) == Replace(Trim(s), from, to)
  {
    TrimStartReplace(s, from, to);
    TrimEndReplace(TrimStart(s), from, to);
  }

  /** `parts.join(sep)`. */
  function Join(parts: seq<string>, sep: string): string {
    if |parts| == 0 then []
    else if |parts| == 1 then parts[0]
    else parts[0] + sep + Join(parts[1..], sep)
  }

  /** `s.split(sep)` for a one-character separator: the pieces between
      separators, empty pieces included, so there is always at least one. */
  function Split(s: string, sep: char): (r: seq<string>)
    ensures |r| >= 1
  {
    if s == [] then [[]]
    else if s[0] == sep then [[]] + Split(s[1..], sep)
    else
      var rest := Split(s[1..], sep);
      [[s[0]] + rest[0]] + rest[1..]
  }

  /** No piece contains the separator. */
  lemma {:induction false} SplitPieces(s: string, sep: char)
    ensures forall k :: 0 <= k < |Split(s, sep)| ==> sep !in Split(s, sep)[k]
  {
    if s != [] {
      SplitPieces(s[1..], sep);
      var rest := Split(s[1..], sep);
      if s[0] != sep {
        assert forall c :: c in [s[0]] + rest[0] ==> c == s[0] || c in rest[0];
        assert forall k :: 1 <= k < |rest| ==> Split(s, sep)[k] == rest[k];
      } else {
        assert forall k :: 1 <= k < |rest| + 1 ==> Split(s, sep)[k] == rest[k - 1];
      }
    }
  }

  /** Empty pieces between two separators are kept. */
  lemma SplitKeepsEmptyPieces()
    ensures Split("a,,b", ',') == ["a", "", "b"]
  {
    var e: string := [];
    assert Split(e, ',') == [e];
    assert Split("b", ',') == ["b"] by {
      assert "b"[1..] == e;
      assert ['b'] + e == "b";
    }
    assert Split(",b", ',') == ["", "b"] by {
      assert ",b"[1..] == "b";
    }
    assert Split(",,b", ',') == ["", "", "b"] by {
      assert ",,b"[1..] == ",b";
    }
    assert "a,,b"[1..] == ",,b";
    assert ['a'] + e == "a";
  }

  /** Splitting brings in no character that was not there. */
  lemma {:induction false} SplitKeepsAbsent(s: string, sep: char, c: char)
    requires c !in s
    ensures forall k :: 0 <= k < |Split(s, sep)| ==> c !in Split(s, sep)[k]
  {
    if s != [] {
      SplitKeepsAbsent(s[1..], sep, c);
      var rest := Split(s[1..], sep);
      if s[0] != sep {
        assert forall d :: d in [s[0]] + rest[0] ==> d == s[0] || d in rest[0];
        assert forall k :: 1 <= k < |rest| ==> Split(s, sep)[k] == rest[k];
      } else {
        assert forall k :: 1 <= k < |rest| + 1 ==> Split(s, sep)[k] == rest[k - 1];
      }
    }
  }

  /** One separator between two separator-free strings: two pieces. */
  lemma SplitAtOne(p: string, q: string, sep: char)
    requires sep !in p && sep !in q
    ensures Split(p + [sep] + q, sep) == [p, q]
  {
    assert p + [sep] + q == p + ([sep] + q);
    SplitWithoutSep(q, sep);
    assert ([sep] + q)[1..] == q;
    assert Split([sep] + q, sep) == [[], q];
    SplitPrefix(p, [sep] + q, sep);
    assert p + [] == p;
  }

  /** The number of times `c` occurs in `s`. */
  function Count(s: string, c: char): nat {
    if s == [] then 0 else (if s[0] == c then 1 else 0) + Count(s[1..], c)
  }

  /** Split keeps empty pieces: one more piece than there are separators. */
  lemma {:induction false} SplitLength(s: string, sep: char)
    ensures |Split(s, sep)| == Count(s, sep) + 1
  {
    if s != [] {
      SplitLength(s[1..], sep);
    }
  }

  /** Joining the pieces with the separator gives back the string. */
  lemma {:induction false} JoinSplit(s: string, sep: char)
    ensures Join(Split(s, sep), [sep]) == s
  {
    if s != [] {
      var rest := Split(s[1..], sep);
      JoinSplit(s[1..], sep);
      if s[0] == sep {
        assert Split(s, sep) == [[]] + rest;
        assert ([[]] + rest)[1..] == rest;
      } else {
        var r := Split(s, sep);
        assert r == [[s[0]] + rest[0]] + rest[1..];
        if |rest| == 1 {
          assert Join(r, [sep]) == [s[0]] + rest[0];
        } else {
          assert r[1..] == rest[1..];
          assert Join(rest, [sep]) == rest[0] + [sep] + Join(rest[1..], [sep]);
        }
        assert s == [s[0]] + s[1..];
      }
    }
  }

  lemma {:induction false} SplitWithoutSep(p: string, sep: char)
    requires sep !in p
    ensures Split(p, sep) == [p]
  {
    if p != [] {
      assert sep !in p[1..] by { assert forall c :: c in p[1..] ==> c in p; }
      SplitWithoutSep(p[1..], sep);
      assert [p[0]] + p[1..] == p;
    }
  }

  /** A separator-free prefix sticks to the first piece. */
  lemma {:induction false} SplitPrefix(p: string, rest: string, sep: char)
    requires sep !in p
    ensures var r := Split(rest, sep);
            Split(p + rest, sep) == [p + r[0]] + r[1..]
  {
    if p != [] {
      assert (p + rest)[1..] == p[1..] + rest;
      assert sep !in p[1..] by { assert forall c :: c in p[1..] ==> c in p; }
      SplitPrefix(p[1..], rest, sep);
      assert [p[0]] + (p[1..] + Split(rest, sep)[0]) == p + Split(rest, sep)[0];
    } else {
      var r := Split(rest, sep);
      assert p + rest == rest;
      assert p + r[0] == r[0];
      assert r == [r[0]] + r[1..];
    }
  }

  /** Splitting undoes joining, for pieces without the separator. */
  lemma {:induction false} SplitJoin(parts: seq<string>, sep: char)
    requires |parts| >= 1
    requires forall k :: 0 <= k < |parts| ==> sep !in parts[k]
    ensures Split(Join(parts, [sep]), sep) == parts
  {
    if |parts| == 1 {
      SplitWithoutSep(parts[0], sep);
    } else {
      var tail := Join(parts[1..], [sep]);
      SplitJoin(parts[1..], sep);
      assert Join(parts, [sep]) == parts[0] + ([sep] + tail);
      SplitPrefix(parts[0], [sep] + tail, sep);
      assert ([sep] + tail)[1..] == tail;
      assert Split([sep] + tail, sep) == [[]] + parts[1..];
      assert ([[]] + parts[1..])[0] == [] && ([[]] + parts[1..])[1..] == parts[1..];
      assert parts[0] + [] == parts[0];
      assert parts == [parts[0]] + parts[1..];
    }
  }

  /** A character in no piece and distinct from the separator is not in the join. */
  lemma {:induction false} JoinAbsent(parts: seq<string>, sep: char, c: char)
    requires c != sep
    requires forall k :: 0 <= k < |parts| ==> c !in parts[k]
    ensures c !in Join(parts, [sep])
  {
    if |parts| > 1 {
      JoinAbsent(parts[1..], sep, c);
      var j := Join(parts[1..], [sep]);
      assert forall x :: x in parts[0] + [sep] + j ==> x in parts[0] || x == sep || x in j;
    }
  }

  /** Replacing in `head + [from] + tail`, when `head` has no `from`. */
  lemma ReplaceAfterHead(head: string, tail: string, from: char, to: char)
    requires from !in head
    ensures Replace(head + [from] + tail, from, to) == head + [to] + Replace(tail, from, to)
  {
    ReplaceAbsent(head, from, to);
    ReplaceAppend(head + [from], tail, from, to);
    ReplaceAppend(head, [from], from, to);
    assert Replace([from], from, to) == [to];
  }

  /** Replacing the separator of a join by another one, when the pieces do
      not contain it, is joining with the other one. */
  lemma {:induction false} ReplaceJoin(parts: seq<string>, from: char, to: char)
    requires forall k :: 0 <= k < |parts| ==> from !in parts[k]
    ensures Replace(Join(parts, [from]), from, to) == Join(parts, [to])
  {
    if |parts| == 1 {
      ReplaceAbsent(parts[0], from, to);
    } else if |parts| > 1 {
      assert forall k :: 0 <= k < |parts| - 1 ==> parts[1..][k] == parts[k + 1];
      ReplaceJoin(parts[1..], from, to);
      ReplaceAfterHead(parts[0], Join(parts[1..], [from]), from, to);
    }
  }

  /** A join of trimmed pieces with a non-space separator is trimmed. */
  lemma {:induction false} JoinTrimmed(parts: seq<string>, sep: char)
    requires !IsSpace(sep)
    requires forall k :: 0 <= k < |parts| ==> Trimmed(parts[k])
    ensures Trimmed(Join(parts, [sep]))
  {
    if |parts| > 1 {
      JoinTrimmed(parts[1..], sep);
      var a, b := parts[0], Join(parts[1..], [sep]);
      var j := a + [sep] + b;
      assert j[0] == if a == [] then sep else a[0];
      assert j[|j| - 1] == if b == [] then sep else b[|b| - 1];
    }
  }

  /** A join of two or more parts ends with the separator and the last part. */
  lemma {:induction false} JoinSnoc(parts: seq<string>, sep: char)
    requires |parts| >= 2
    ensures Join(parts, [sep]) == Join(parts[..|parts| - 1], [sep]) + [sep] + parts[|parts| - 1]
  {
    var n := |parts|;
    if n == 2 {
      assert parts[1..] == [parts[1]];
      assert parts[..1] == [parts[0]];
    } else {
      JoinSnoc(parts[1..], sep);
      assert parts[1..][..n - 2] == parts[..n - 1][1..];
      assert parts[1..][n - 2] == parts[n - 1];
    }
  }

  /** The parts with white space dropped before the first and after the last. */
  function TrimEnds(parts: seq<string>): (r: seq<string>)
    requires |parts| >= 2
    ensures |r| == |parts|
  {
    parts[0 := TrimStart(parts[0])][|parts| - 1 := TrimEnd(parts[|parts| - 1])]
  }

  /** Trimming the front of a join whose separator is not white space
      trims only the front of the first part. */
  lemma TrimStartJoin(parts: seq<string>, sep: char)
    requires |parts| >= 2 && !IsSpace(sep)
    ensures TrimStart(Join(parts, [sep])) == Join(parts[0 := TrimStart(parts[0])], [sep])
  {
    var rest := Join(parts[1..], [sep]);
    assert Join(parts, [sep]) == parts[0] + [sep] + rest;
    TrimStartBefore(parts[0], sep, rest);
    assert parts[0 := TrimStart(parts[0])][1..] == parts[1..];
  }

  /** Trimming the back of a join whose separator is not white space
      trims only the back of the last part. */
  lemma TrimEndJoin(parts: seq<string>, sep: char)
    requires |parts| >= 2 && !IsSpace(sep)
    ensures TrimEnd(Join(parts, [sep])) == Join(parts[|parts| - 1 := TrimEnd(parts[|parts| - 1])], [sep])
  {
    var n := |parts|;
    var q := parts[n - 1 := TrimEnd(parts[n - 1])];
    JoinSnoc(parts, sep);
    JoinSnoc(q, sep);
    assert q[..n - 1] == parts[..n - 1];
    TrimEndAfter(Join(parts[..n - 1], [sep]), sep, parts[n - 1]);
  }

  /** Trimming a join whose separator is not white space trims only the
      front of the first part and the back of the last. */
  lemma TrimJoin(parts: seq<string>, sep: char)
    requires |parts| >= 2 && !IsSpace(sep)
    ensures Trim(Join(parts, [sep])) == Join(TrimEnds(parts), [sep])
  {
    var v1 := parts[0 := TrimStart(parts[0])];
    TrimStartJoin(parts, sep);
    TrimEndJoin(v1, sep);
    assert v1[|parts| - 1] == parts[|parts| - 1];
  }

  /** Trimming the ends brings in no character. */
  lemma TrimEndsKeepsAbsent(parts: seq<string>, c: char)
    requires |parts| >= 2
    requires forall k :: 0 <= k < |parts| ==> c !in parts[k]
    ensures forall k :: 0 <= k < |parts| ==> c !in TrimEnds(parts)[k]
  {
    TrimStartKeepsAbsent(parts[0], c);
    TrimEndKeepsAbsent(parts[|parts| - 1], c);
  }

  /** Each part of `TrimEnds` trims to what the original part trims to. */
  lemma TrimOfTrimEnds(parts: seq<string>)
    requires |parts| >= 2
    ensures forall k :: 0 <= k < |parts| ==> Trim(TrimEnds(parts)[k]) == Trim(parts[k])
  {
    TrimOfTrimStart(parts[0]);
    TrimOfTrimEnd(parts[|parts| - 1]);
  }

  /** A join of at least two pieces contains the separator, so it is not empty. */
  lemma JoinNotEmpty(parts: seq<string>, sep: char)
    requires |parts| >= 2
    ensures Join(parts, [sep]) != []
  {
    assert |Join(parts, [sep])| >= |parts[0]| + 1;
  }
}
