/**
 * The few `str` operations of the Python runtime that the crawler and the
 * text normaliser rely on: searching for a character, `split`/`join`,
 * `startswith`/`endswith`, whitespace splitting and `strip`.
 */
module Text {

  /** No character of `s` belongs to `stops`. */
  predicate NoneIn(s: string, stops: set<char>)
  {
    forall i :: 0 <= i < |s| ==> s[i] !in stops
  }

  predicate StartsWith(s: string, prefix: string)
  {
    prefix <= s
  }

  predicate EndsWith(s: string, suffix: string)
  {
    |suffix| <= |s| && s[|s| - |suffix|..] == suffix
  }

  /** A suffix of a suffix is a suffix. */
  lemma EndsWithTrans(a: string, b: string, c: string)
    requires EndsWith(a, b) && EndsWith(b, c)
    ensures EndsWith(a, c)
  {
    assert a[|a| - |c|..] == a[|a| - |b|..][|b| - |c|..];
  }

  /** Index of the first character of `s` in `stops`, or `|s|` when there is none. */
  function IndexOfAny(s: string, stops: set<char>): (i: nat)
    ensures i <= |s|
    ensures forall k :: 0 <= k < i ==> s[k] !in stops
    ensures i < |s| ==> s[i] in stops
  {
    if s == [] || s[0] in stops then 0 else 1 + IndexOfAny(s[1..], stops)
  }

  /** The index of the first stop character is determined by the two facts that define it. */
  lemma IndexOfAnyUnique(s: string, stops: set<char>, i: nat)
    requires i <= |s| && NoneIn(s[..i], stops)
    requires i < |s| ==> s[i] in stops
    ensures IndexOfAny(s, stops) == i
  {
  }

  /** Searching `a + b` when `a` holds no stop character continues into `b`. */
  lemma IndexOfAnyAppend(a: string, b: string, stops: set<char>)
    requires NoneIn(a, stops)
    ensures IndexOfAny(a + b, stops) == |a| + IndexOfAny(b, stops)
  {
    var k := IndexOfAny(b, stops);
    var s := a + b;
    assert s[..|a| + k] == a + b[..k];
    IndexOfAnyUnique(s, stops, |a| + k);
  }

  /** Searching a prefix finds the same stop character, unless the prefix ends before it. */
  lemma IndexOfAnyPrefix(s: string, n: nat, stops: set<char>)
    requires n <= |s|
    ensures IndexOfAny(s[..n], stops) == if IndexOfAny(s, stops) < n then IndexOfAny(s, stops) else n
  {
    var i := IndexOfAny(s, stops);
    if i < n {
      assert s[..n][..i] == s[..i];
      IndexOfAnyUnique(s[..n], stops, i);
    } else {
      assert s[..n][..n] == s[..i][..n];
      IndexOfAnyUnique(s[..n], stops, n);
    }
  }

  /** Python `s.split(c)[0]`: the part of `s` before the first `c`. */
  function Before(s: string, c: char): (r: string)
    ensures r <= s && NoneIn(r, {c})
    ensures |r| < |s| ==> s[|r|] == c
  {
    s[..IndexOfAny(s, {c})]
  }

  lemma BeforeNoOp(s: string, c: char)
    requires NoneIn(s, {c})
    ensures Before(s, c) == s
  {
    assert s[..|s|] == s;
    IndexOfAnyUnique(s, {c}, |s|);
  }

  /** Python `s.rfind(c)`: the index of the last `c` in `s`, or -1. */
  function LastIndexOf(s: string, c: char): (i: int)
    ensures -1 <= i < |s|
    ensures i >= 0 ==> s[i] == c
    ensures forall k :: i < k < |s| ==> s[k] != c
  {
    if s == [] then -1
    else if s[|s| - 1] == c then |s| - 1
    else LastIndexOf(s[..|s| - 1], c)
  }

  lemma LastIndexOfUnique(s: string, c: char, i: int)
    requires -1 <= i < |s|
    requires i >= 0 ==> s[i] == c
    requires forall k :: i < k < |s| ==> s[k] != c
    ensures LastIndexOf(s, c) == i
  {
  }

  /** Python `sep.join(parts)`. */
  function JoinWith(sep: string, parts: seq<string>): string
  {
    if |parts| == 0 then ""
    else if |parts| == 1 then parts[0]
    else parts[0] + sep + JoinWith(sep, parts[1..])
  }

  /** Joining non-empty parts starts with the first part and ends with the last; it is empty only for no parts. */
  lemma {:induction false} JoinWithEnds(sep: string, parts: seq<string>)
    requires forall k :: 0 <= k < |parts| ==> parts[k] != []
    ensures var r := JoinWith(sep, parts);
      && (r == [] <==> parts == [])
      && (parts != [] ==> r[0] == parts[0][0] && r[|r| - 1] == parts[|parts| - 1][|parts[|parts| - 1]| - 1])
  {
    if |parts| > 1 {
      JoinWithEnds(sep, parts[1..]);
      var rest := JoinWith(sep, parts[1..]);
      var r := parts[0] + sep + rest;
      assert r[0] == parts[0][0];
      assert r[|r| - 1] == rest[|rest| - 1];
    }
  }

  /** Python `s.split(c)` for a single separator character. */
  function SplitOn(s: string, c: char): (parts: seq<string>)
    ensures |parts| >= 1
    ensures forall k :: 0 <= k < |parts| ==> NoneIn(parts[k], {c})
    decreases |s|
  {
    var i := IndexOfAny(s, {c});
    if i == |s| then [s] else [s[..i]] + SplitOn(s[i + 1..], c)
  }

  /** Splitting on the separator undoes joining with it, when no part contains the separator. */
  lemma {:induction false} SplitOnJoin(parts: seq<string>, c: char)
    requires |parts| >= 1
    requires forall k :: 0 <= k < |parts| ==> NoneIn(parts[k], {c})
    ensures SplitOn(JoinWith([c], parts), c) == parts
  {
    if |parts| == 1 {
      SplitOnNone(parts[0], c);
    } else {
      var rest := parts[1..];
      assert forall k :: 0 <= k < |rest| ==> NoneIn(rest[k], {c}) by {
        forall k | 0 <= k < |rest| ensures NoneIn(rest[k], {c}) {
          assert rest[k] == parts[k + 1];
        }
      }
      SplitOnJoin(rest, c);
      assert JoinWith([c], parts) == parts[0] + [c] + JoinWith([c], rest);
      SplitOnCons(parts[0], c, JoinWith([c], rest));
      assert parts == [parts[0]] + rest;
    }
  }

  /** A string without the separator splits into itself. */
  lemma SplitOnNone(p: string, c: char)
    requires NoneIn(p, {c})
    ensures SplitOn(p, c) == [p]
  {
    assert p[..|p|] == p;
    IndexOfAnyUnique(p, {c}, |p|);
  }

  /** A first part without the separator is split off at the first separator. */
  lemma SplitOnCons(p: string, c: char, rest: string)
    requires NoneIn(p, {c})
    ensures SplitOn(p + [c] + rest, c) == [p] + SplitOn(rest, c)
  {
    var s := p + [c] + rest;
    assert s == p + ([c] + rest);
    IndexOfAnyAppend(p, [c] + rest, {c});
    assert s[..|p|] == p;
    assert s[|p| + 1..] == rest;
  }

  /** Python `str.isspace` for one character. */
  predicate IsSpace(c: char)
  {
    c == ' ' || '\t' <= c <= '\r' || '\U{1c}' <= c <= '\U{1f}'
    || c == '\U{85}' || c == '\U{a0}' || c == '\U{1680}' || '\U{2000}' <= c <= '\U{200a}'
    || c == '\U{2028}' || c == '\U{2029}' || c == '\U{202f}' || c == '\U{205f}' || c == '\U{3000}'
  }

  predicate NoSpace(s: string)
  {
    forall i :: 0 <= i < |s| ==> !IsSpace(s[i])
  }

  /** Length of the longest prefix of `s` made of whitespace. */
  function SpaceSpan(s: string): (n: nat)
    ensures n <= |s|
    ensures forall i :: 0 <= i < n ==> IsSpace(s[i])
    ensures n < |s| ==> !IsSpace(s[n])
  {
    if s != [] && IsSpace(s[0]) then 1 + SpaceSpan(s[1..]) else 0
  }

  /** Length of the longest prefix of `s` without whitespace. */
  function WordSpan(s: string): (n: nat)
    ensures n <= |s| && NoSpace(s[..n])
    ensures n < |s| ==> IsSpace(s[n])
  {
    if s != [] && !IsSpace(s[0]) then 1 + WordSpan(s[1..]) else 0
  }

  /** Python `s.split()`: the maximal runs of non-whitespace characters, in order. */
  function Words(s: string): (ws: seq<string>)
    ensures forall k :: 0 <= k < |ws| ==> ws[k] != [] && NoSpace(ws[k])
    decreases |s|
  {
    var rest := s[SpaceSpan(s)..];
    if rest == [] then []
    else
      var n := WordSpan(rest);
      [rest[..n]] + Words(rest[n..])
  }

  /** A slice of a string free of the characters `bad` is free of them too. */
  lemma NoneInSlice(s: string, i: nat, j: nat, bad: set<char>)
    requires i <= j <= |s| && NoneIn(s, bad)
    ensures NoneIn(s[i..j], bad)
  {
    forall k | 0 <= k < j - i ensures s[i..j][k] !in bad {
      assert s[i..j][k] == s[i + k];
    }
  }

  lemma NoneInCons(w: string, ws: seq<string>, bad: set<char>)
    requires NoneIn(w, bad)
    requires forall k :: 0 <= k < |ws| ==> NoneIn(ws[k], bad)
    ensures forall k :: 0 <= k < |[w] + ws| ==> NoneIn(([w] + ws)[k], bad)
  {
    forall k | 0 <= k < |[w] + ws| ensures NoneIn(([w] + ws)[k], bad) {
      if k > 0 {
        assert ([w] + ws)[k] == ws[k - 1];
      }
    }
  }

  /** A concatenation of strings free of the characters `bad` is free of them. */
  lemma NoneInConcat(a: string, b: string, bad: set<char>)
    requires NoneIn(a, bad) && NoneIn(b, bad)
    ensures NoneIn(a + b, bad)
  {
    forall i | 0 <= i < |a + b| ensures (a + b)[i] !in bad {
      if i < |a| {
        assert (a + b)[i] == a[i];
      } else {
        assert (a + b)[i] == b[i - |a|];
      }
    }
  }

  /** Words of a string free of the characters `bad` are free of them too. */
  lemma {:induction false} WordsNoneIn(s: string, bad: set<char>)
    requires NoneIn(s, bad)
    ensures forall k :: 0 <= k < |Words(s)| ==> NoneIn(Words(s)[k], bad)
    decreases |s|
  {
    var lead := SpaceSpan(s);
    var rest := s[lead..];
    if rest != [] {
      var n := WordSpan(rest);
      var first := rest[..n];
      var more := rest[n..];
      NoneInSlice(s, lead, lead + n, bad);
      NoneInSlice(s, lead + n, |s|, bad);
      assert first == s[lead..lead + n];
      assert more == s[lead + n..|s|];
      WordsNoneIn(more, bad);
      NoneInCons(first, Words(more), bad);
    }
  }

  /** Joining parts free of the characters `bad` with a separator free of them gives a string free of them. */
  lemma {:induction false} JoinWithNoneIn(sep: string, parts: seq<string>, bad: set<char>)
    requires NoneIn(sep, bad)
    requires forall k :: 0 <= k < |parts| ==> NoneIn(parts[k], bad)
    ensures NoneIn(JoinWith(sep, parts), bad)
  {
    if |parts| > 1 {
      JoinWithNoneIn(sep, parts[1..], bad);
      var rest := JoinWith(sep, parts[1..]);
      var s := parts[0] + sep + rest;
      forall i | 0 <= i < |s| ensures s[i] !in bad {
        if i < |parts[0]| {
          assert s[i] == parts[0][i];
        } else if i < |parts[0]| + |sep| {
          assert s[i] == sep[i - |parts[0]|];
        } else {
          assert s[i] == rest[i - |parts[0]| - |sep|];
        }
      }
    }
  }

  /** A word followed by nothing or by whitespace is the first word. */
  lemma WordsCons(w: string, t: string)
    requires w != [] && NoSpace(w)
    requires t == [] || IsSpace(t[0])
    ensures Words(w + t) == [w] + Words(t)
  {
    var s := w + t;
    assert s[0] == w[0];
    assert SpaceSpan(s) == 0;
    assert s[0..] == s;
    assert s[..|w|] == w;
    assert |w| < |s| ==> s[|w|] == t[0];
    WordSpanUnique(s, |w|);
    assert s[|w|..] == t;
  }

  /** Leading whitespace does not start a word. */
  lemma WordsSkipSpace(t: string)
    requires t != [] && IsSpace(t[0])
    ensures Words(t) == Words(t[1..])
  {
    assert t[SpaceSpan(t)..] == t[1..][SpaceSpan(t[1..])..];
  }

  /** Joining non-empty words with single spaces and splitting again gives the words back. */
  lemma {:induction false} WordsJoin(ws: seq<string>)
    requires forall k :: 0 <= k < |ws| ==> ws[k] != [] && NoSpace(ws[k])
    ensures Words(JoinWith(" ", ws)) == ws
  {
    if |ws| == 1 {
      WordsCons(ws[0], "");
      assert ws[0] + "" == ws[0];
    } else if |ws| > 1 {
      var more := JoinWith(" ", ws[1..]);
      WordsJoin(ws[1..]);
      WordThenSpace(ws[0], more);
      assert ws == [ws[0]] + ws[1..];
    }
  }

  /** A word, a space and more text: the word, then the words of the rest. */
  lemma WordThenSpace(w: string, more: string)
    requires w != [] && NoSpace(w)
    ensures Words(w + " " + more) == [w] + Words(more)
  {
    var tail := " " + more;
    assert w + " " + more == w + tail;
    WordsCons(w, tail);
    assert tail[1..] == more;
    WordsSkipSpace(tail);
  }

  lemma {:induction false} WordSpanUnique(s: string, n: nat)
    requires n <= |s| && NoSpace(s[..n])
    requires n < |s| ==> IsSpace(s[n])
    ensures WordSpan(s) == n
  {
    if n > 0 {
      assert s[0] == s[..n][0];
      var t := s[1..];
      var w := t[..n - 1];
      forall i | 0 <= i < n - 1 ensures !IsSpace(w[i]) {
        assert w[i] == s[..n][i + 1];
      }
      assert n - 1 < |t| ==> t[n - 1] == s[n];
      WordSpanUnique(t, n - 1);
    }
  }

  /** Python `s.strip()`: `s` without leading and trailing whitespace. */
  function Strip(s: string): (r: string)
    ensures r == [] || (!IsSpace(r[0]) && !IsSpace(r[|r| - 1]))
    ensures exists i, j :: 0 <= i <= j <= |s| && r == s[i..j] && Blank(s[..i]) && Blank(s[j..])
    ensures r == [] <==> forall i :: 0 <= i < |s| ==> IsSpace(s[i])
  {
    var lead := SpaceSpan(s);
    var t := s[lead..];
    var r := TrimEnd(t);
    assert r == s[lead..lead + |r|];
    assert s[lead + |r|..] == t[|r|..];
    r
  }

  /** Every character is whitespace. */
  predicate Blank(s: string)
  {
    forall i :: 0 <= i < |s| ==> IsSpace(s[i])
  }

  /** `s` without its trailing whitespace. */
  function TrimEnd(s: string): (r: string)
    ensures r <= s
    ensures r == [] || !IsSpace(r[|r| - 1])
    ensures forall i :: |r| <= i < |s| ==> IsSpace(s[i])
  {
    if s != [] && IsSpace(s[|s| - 1]) then TrimEnd(s[..|s| - 1]) else s
  }
}
