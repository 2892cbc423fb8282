/**
 * innerText of static.js: innerHTML with every match of the regular
 * expression /<\/?[^>]+>/g replaced by the empty string.
 *
 * A match starting at a '<' always ends at the first '>' after it, and
 * exists exactly when that '>' is not the very next character: '[^>]+'
 * cannot step over a '>', and the optional '/' is itself a character of
 * '[^>]+', so the pattern accepts the same strings as /<[^>]+>/.
 */
module Markup {

  /** Index of the first '>' at or after i, or |s| when there is none. */
  function NextGt(s: string, i: nat): (q: nat)
    requires i <= |s|
    ensures i <= q <= |s|
    ensures q < |s| ==> s[q] == '>'
    ensures forall k :: i <= k < q ==> s[k] != '>'
    decreases |s| - i
  {
    if i == |s| || s[i] == '>' then i else NextGt(s, i + 1)
  }

  /** Length of the regular-expression match that starts s, or 0 when no match starts there. */
  function TagLength(s: string): (n: nat)
    ensures n == 0 || (3 <= n <= |s| && s[0] == '<' && s[n - 1] == '>')
    ensures n > 0 ==> forall k :: 1 <= k < n - 1 ==> s[k] != '>'
  {
    if s != [] && s[0] == '<' then
      var q := NextGt(s, 1);
      if 2 <= q < |s| then q + 1 else 0
    else 0
  }

  /** The global replace, scanning left to right: skip a match, otherwise keep one character. */
  function StripTags(s: string): (r: string)
    ensures |r| <= |s|
    decreases |s|
  {
    if s == [] then []
    else
      var n := TagLength(s);
      if n > 0 then StripTags(s[n..]) else [s[0]] + StripTags(s[1..])
  }

  /** No complete tag: a '<' followed by one or more characters other than '>' and then a '>'. */
  predicate NoCompleteTag(s: string) {
    forall i, j :: 0 <= i < j < |s| && s[i] == '<' && s[j] == '>' ==> j == i + 1 || '>' in s[i + 1..j]
  }

  /** The shape StripTags leaves behind: every '<' is directly followed by '>' or by no '>' at all. */
  predicate Closed(r: string) {
    forall i :: 0 <= i < |r| && r[i] == '<' ==> (i + 1 < |r| && r[i + 1] == '>') || '>' !in r[i + 1..]
  }

  /** StripTags only removes characters, so it cannot introduce one. */
  lemma {:induction false} StripTagsKeepsOut(s: string, c: char)
    requires c !in s
    ensures c !in StripTags(s)
    decreases |s|
  {
    if s != [] {
      var n := TagLength(s);
      if n > 0 {
        assert forall k :: 0 <= k < |s[n..]| ==> s[n..][k] == s[n + k];
        StripTagsKeepsOut(s[n..], c);
      } else {
        assert forall k :: 0 <= k < |s[1..]| ==> s[1..][k] == s[k + 1];
        StripTagsKeepsOut(s[1..], c);
      }
    }
  }

  /** Text without '<' comes out of innerText unchanged. */
  lemma {:induction false} StripTagsPlain(s: string)
    requires '<' !in s
    ensures StripTags(s) == s
    decreases |s|
  {
    if s != [] {
      assert '<' !in s[1..];
      StripTagsPlain(s[1..]);
      assert s == [s[0]] + s[1..];
    }
  }

  lemma {:induction false} StripTagsClosed(s: string)
    ensures Closed(StripTags(s))
    decreases |s|
  {
    if s == [] {
      return;
    }
    var n := TagLength(s);
    if n > 0 {
      StripTagsClosed(s[n..]);
      return;
    }
    var rest := StripTags(s[1..]);
    StripTagsClosed(s[1..]);
    var r := StripTags(s);
    assert r == [s[0]] + rest;
    forall i | 0 <= i < |r| && r[i] == '<'
      ensures (i + 1 < |r| && r[i + 1] == '>') || '>' !in r[i + 1..]
    {
      if i == 0 {
        if |s| >= 2 && s[1] == '>' {
          assert TagLength(s[1..]) == 0;
          assert rest[0] == '>';
        } else if |s| >= 2 {
          var q := NextGt(s, 1);
          assert q == |s|;
          assert '>' !in s[1..];
          StripTagsKeepsOut(s[1..], '>');
          assert r[1..] == rest;
        } else {
          assert r[1..] == [];
        }
      } else {
        assert r[1..] == rest;
        assert r[i] == rest[i - 1];
        assert r[i + 1..] == r[1..][i..];
      }
    }
  }

  lemma ClosedHasNoCompleteTag(r: string)
    requires Closed(r)
    ensures NoCompleteTag(r)
  {
    forall i, j | 0 <= i < j < |r| && r[i] == '<' && r[j] == '>'
      ensures j == i + 1 || '>' in r[i + 1..j]
    {
      if r[i + 1] == '>' {
        assert j == i + 1 || r[i + 1..j][0] == '>';
      }
    }
  }

  /** The output of innerText contains no complete tag. */
  lemma StripTagsLeavesNoTag(s: string)
    ensures NoCompleteTag(StripTags(s))
  {
    StripTagsClosed(s);
    ClosedHasNoCompleteTag(StripTags(s));
  }

  lemma {:induction false} ClosedIsFixed(r: string)
    requires Closed(r)
    ensures StripTags(r) == r
    decreases |r|
  {
    if r != [] {
      if r[0] == '<' && |r| >= 2 {
        var q := NextGt(r, 1);
        if r[1] != '>' {
          assert '>' !in r[1..];
        }
      }
      assert TagLength(r) == 0;
      var t := r[1..];
      forall i | 0 <= i < |t| && t[i] == '<'
        ensures (i + 1 < |t| && t[i + 1] == '>') || '>' !in t[i + 1..]
      {
        assert r[i + 1] == '<';
        assert t[i + 1..] == r[i + 2..];
      }
      ClosedIsFixed(t);
      assert r == [r[0]] + t;
    }
  }

  /** Stripping twice strips nothing more than stripping once. */
  lemma StripTagsIdempotent(s: string)
    ensures StripTags(StripTags(s)) == StripTags(s)
  {
    StripTagsClosed(s);
    ClosedIsFixed(StripTags(s));
  }

  /** A tag at the front is removed whole. */
  lemma SkipTag(x: string, rest: string)
    requires |x| >= 1 && '>' !in x
    ensures StripTags("<" + x + ">" + rest) == StripTags(rest)
  {
    var s := "<" + x + ">" + rest;
    var q := NextGt(s, 1);
    assert s[|x| + 1] == '>';
    forall k | 1 <= k < |x| + 1
      ensures s[k] != '>'
    {
      assert s[k] == x[k - 1];
    }
    assert q == |x| + 1;
    assert TagLength(s) == |x| + 2;
    assert s[|x| + 2..] == rest;
  }

  /** Text without '<' at the front is kept as it is. */
  lemma {:induction false} KeepPlainPrefix(t: string, rest: string)
    requires '<' !in t
    ensures StripTags(t + rest) == t + StripTags(rest)
    decreases |t|
  {
    if t != [] {
      var s := t + rest;
      assert s[0] == t[0] && t[0] != '<';
      assert TagLength(s) == 0;
      assert s[1..] == t[1..] + rest;
      assert '<' !in t[1..];
      KeepPlainPrefix(t[1..], rest);
      calc {
        StripTags(s);
        [s[0]] + StripTags(s[1..]);
        [t[0]] + (t[1..] + StripTags(rest));
        { assert t == [t[0]] + t[1..]; }
        t + StripTags(rest);
      }
    } else {
      assert t + rest == rest;
    }
  }
}
