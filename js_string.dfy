/** The handful of JavaScript string built-ins the route matcher relies on,
    written out over `seq<char>`: `startsWith`, `endsWith` with a one-character
    argument, `replace` with a one-character pattern, `split` with a string
    separator, and `filter(Boolean)` on an array of strings. */
module JsString {

  /** `s.startsWith(prefix)`. */
  predicate StartsWith(s: string, prefix: string) {
    |prefix| <= |s| && s[..|prefix|] == prefix
  }

  /** `s.endsWith(c)` for a one-character string `c`. */
  predicate EndsWith(s: string, c: char) {
    |s| > 0 && s[|s| - 1] == c
  }

  /** `t` occurs in `s` starting at position `k`. */
  predicate OccursAt(s: string, t: string, k: nat) {
    k + |t| <= |s| && s[k..k + |t|] == t
  }

  /** `t` occurs in `s` as a contiguous piece (`s.includes(t)`). */
  ghost predicate Occurs(s: string, t: string) {
    exists k: nat :: OccursAt(s, t, k)
  }

  /** The position of the first `c` in `s` (`s.indexOf(c)`). */
  function FirstIndex(s: string, c: char): (i: nat)
    requires c in s
    ensures i < |s| && s[i] == c && c !in s[..i]
  {
    if s[0] == c then 0
    else
      assert s == [s[0]] + s[1..];
      var j := FirstIndex(s[1..], c);
      assert s[..j + 1] == [s[0]] + s[1..][..j];
      j + 1
  }

  /** `s.replace(c, '')` for a one-character string pattern: JavaScript
      replaces only the FIRST occurrence, wherever it is. */
  function RemoveFirst(s: string, c: char): (r: string)
    ensures c !in s ==> r == s
    ensures c in s ==> r == s[..FirstIndex(s, c)] + s[FirstIndex(s, c) + 1..]
    ensures forall d :: d != c ==> (d in r <==> d in s)
  {
    if s == [] then []
    else if s[0] == c then s[1..]
    else
      assert s == [s[0]] + s[1..];
      var rest := RemoveFirst(s[1..], c);
      if c in s[1..] then
        var i := FirstIndex(s[1..], c);
        assert FirstIndex(s, c) == i + 1;
        assert s[..i + 1] == [s[0]] + s[1..][..i];
        assert s[i + 2..] == s[1..][i + 1..];
        [s[0]] + rest
      else
        [s[0]] + rest
  }

  /** `s.split(sep)` for a non-empty separator: scanning left to right, every
      non-overlapping occurrence of `sep` ends the current piece. An input
      without `sep` gives a single piece; adjacent or boundary separators
      give empty pieces. */
  function Split(s: string, sep: string): (r: seq<string>)
    requires |sep| > 0
    ensures |r| >= 1
    decreases |s|
  {
    if |s| < |sep| then [s]
    else if s[..|sep|] == sep then [""] + Split(s[|sep|..], sep)
    else
      var rest := Split(s[1..], sep);
      [[s[0]] + rest[0]] + rest[1..]
  }

  /** `pieces.join(sep)`: the inverse of `Split`. */
  function Join(pieces: seq<string>, sep: string): string
  {
    if |pieces| == 0 then ""
    else if |pieces| == 1 then pieces[0]
    else pieces[0] + sep + Join(pieces[1..], sep)
  }

  /** `xs.filter(Boolean)` on strings: the empty string is the only falsy
      string, so this keeps the non-empty ones, in order. */
  function NonEmpty(xs: seq<string>): (r: seq<string>)
    ensures |r| <= |xs|
    ensures forall i :: 0 <= i < |r| ==> r[i] != ""
    ensures forall x :: x in r <==> x in xs && x != ""
  {
    if xs == [] then []
    else if xs[0] == "" then NonEmpty(xs[1..])
    else [xs[0]] + NonEmpty(xs[1..])
  }

  /** `startsWith` holds exactly when the string is the prefix followed by
      something. */
  lemma StartsWithMeans(s: string, prefix: string)
    ensures StartsWith(s, prefix) <==> exists rest :: prefix + rest == s
  {
    forall rest | prefix + rest == s ensures StartsWith(s, prefix) {
      assert s[..|prefix|] == prefix;
    }
    if StartsWith(s, prefix) {
      assert prefix + s[|prefix|..] == s;
    }
  }

  /** `endsWith(c)` holds exactly when the string is something followed by
      `c`. */
  lemma EndsWithMeans(s: string, c: char)
    ensures EndsWith(s, c) <==> exists init :: init + [c] == s
  {
    forall init | init + [c] == s ensures EndsWith(s, c) {
      assert s[|s| - 1] == c;
    }
    if EndsWith(s, c) {
      assert s[..|s| - 1] + [c] == s;
    }
  }

  /** Joining a piece in front of at least one more: piece, separator, rest. */
  lemma JoinCons(x: string, rest: seq<string>, sep: string)
    requires |rest| >= 1
    ensures Join([x] + rest, sep) == x + sep + Join(rest, sep)
  {
    assert ([x] + rest)[1..] == rest;
  }

  /** Putting a character in front of the first piece puts it in front of
      the join. */
  lemma JoinPrependChar(c: char, rest: seq<string>, sep: string)
    requires |rest| >= 1
    ensures Join([[c] + rest[0]] + rest[1..], sep) == [c] + Join(rest, sep)
  {
    if |rest| == 1 {
      assert [[c] + rest[0]] + rest[1..] == [[c] + rest[0]];
    } else {
      JoinCons([c] + rest[0], rest[1..], sep);
      JoinCons(rest[0], rest[1..], sep);
      assert rest == [rest[0]] + rest[1..];
    }
  }

  /** Splitting and joining again gives back the input. */
  lemma {:induction false} SplitJoin(s: string, sep: string)
    requires |sep| > 0
    ensures Join(Split(s, sep), sep) == s
    decreases |s|
  {
    if |s| < |sep| {
    } else if s[..|sep|] == sep {
      var rest := Split(s[|sep|..], sep);
      SplitJoin(s[|sep|..], sep);
      JoinCons("", rest, sep);
      assert s == sep + s[|sep|..];
    } else {
      var rest := Split(s[1..], sep);
      SplitJoin(s[1..], sep);
      JoinPrependChar(s[0], rest, sep);
      assert s == [s[0]] + s[1..];
    }
  }

  /** The first piece of a split is a prefix of the input. */
  lemma {:induction false} SplitFirstPiecePrefix(s: string, sep: string)
    requires |sep| > 0
    ensures StartsWith(s, Split(s, sep)[0])
    decreases |s|
  {
    if |s| < |sep| {
    } else if s[..|sep|] == sep {
    } else {
      SplitFirstPiecePrefix(s[1..], sep);
      var rest := Split(s[1..], sep);
      assert s[..1 + |rest[0]|] == [s[0]] + s[1..][..|rest[0]|];
    }
  }

  /** No piece of a split contains the separator. */
  lemma {:induction false} SplitPiecesAvoidSeparator(s: string, sep: string)
    requires |sep| > 0
    ensures forall i :: 0 <= i < |Split(s, sep)| ==> !Occurs(Split(s, sep)[i], sep)
    decreases |s|
  {
    var r := Split(s, sep);
    if |s| < |sep| {
      assert r == [s];
    } else if s[..|sep|] == sep {
      SplitPiecesAvoidSeparator(s[|sep|..], sep);
      var rest := Split(s[|sep|..], sep);
      assert r == [""] + rest;
      forall i | 0 <= i < |r| ensures !Occurs(r[i], sep) {
        if i > 0 { assert r[i] == rest[i - 1]; }
      }
    } else {
      SplitPiecesAvoidSeparator(s[1..], sep);
      SplitFirstPiecePrefix(s[1..], sep);
      var rest := Split(s[1..], sep);
      var head := [s[0]] + rest[0];
      assert r == [head] + rest[1..];
      assert !Occurs(rest[0], sep);
      assert !Occurs(head, sep) by {
        if Occurs(head, sep) {
          var k: nat :| OccursAt(head, sep, k);
          if k == 0 {
            assert false;
          } else {
            assert rest[0][k - 1..k - 1 + |sep|] == head[k..k + |sep|];
            assert OccursAt(rest[0], sep, k - 1);
            assert false;
          }
        }
      }
      forall i | 0 <= i < |r| ensures !Occurs(r[i], sep) {
        if i > 0 { assert r[i] == rest[i]; }
      }
    }
  }

  /** When there is a second piece, the first one is followed in the input
      by a separator. */
  lemma {:induction false} SplitFirstCut(s: string, sep: string)
    requires |sep| > 0 && |Split(s, sep)| > 1
    ensures StartsWith(s, Split(s, sep)[0] + sep)
    decreases |s|
  {
    if |s| < |sep| {
      assert false;
    } else if s[..|sep|] == sep {
    } else {
      var rest := Split(s[1..], sep);
      SplitFirstCut(s[1..], sep);
      var cut := rest[0] + sep;
      assert s[..1 + |cut|] == [s[0]] + s[1..][..|cut|];
    }
  }

  /** A prefix of a prefix is a prefix. */
  lemma StartsWithTrans(s: string, x: string, y: string)
    requires StartsWith(s, x) && StartsWith(x, y)
    ensures StartsWith(s, y)
  {
    assert s[..|y|] == s[..|x|][..|y|];
  }

  /** Putting the same character in front keeps a prefix a prefix. */
  lemma ConsStartsWith(c: char, t: string, x: string)
    requires StartsWith(t, x)
    ensures StartsWith([c] + t, [c] + x)
  {
    assert ([c] + t)[..1 + |x|] == [c] + t[..|x|];
  }

  /** A piece `p` cut off at a separator in `t`, with no early occurrence:
      putting in front of it a character `c` at which no separator starts
      makes no early occurrence either. */
  lemma HeadPieceLeftmost(c: char, t: string, p: string, sep: string)
    requires |sep| > 0 && StartsWith(t, p + sep)
    requires !StartsWith([c] + t, sep)
    requires !Occurs(p + sep[..|sep| - 1], sep)
    ensures !Occurs([c] + p + sep[..|sep| - 1], sep)
  {
    var early := sep[..|sep| - 1];
    var w := p + early;
    var head := [c] + w;
    assert [c] + p + early == head;
    assert StartsWith(p + sep, w) by {
      assert (p + sep)[..|w|] == w;
    }
    StartsWithTrans(t, p + sep, w);
    ConsStartsWith(c, t, w);
    if Occurs(head, sep) {
      var k: nat :| OccursAt(head, sep, k);
      if k == 0 {
        StartsWithTrans([c] + t, head, sep);
        assert false;
      } else {
        assert w[k - 1..k - 1 + |sep|] == head[k..k + |sep|];
        assert OccursAt(w, sep, k - 1);
        assert false;
      }
    }
  }

  /** Every cut is made at the LEFTMOST occurrence of the separator: no
      occurrence starts inside a piece, not even one reaching into the
      separator that ends it. With `SplitJoin` and
      `SplitPiecesAvoidSeparator` this pins the pieces down completely. */
  lemma {:induction false} SplitLeftmost(s: string, sep: string)
    requires |sep| > 0
    ensures forall i :: 0 <= i < |Split(s, sep)| - 1 ==>
      !Occurs(Split(s, sep)[i] + sep[..|sep| - 1], sep)
    decreases |s|
  {
    var r := Split(s, sep);
    var early := sep[..|sep| - 1];
    if |s| < |sep| {
    } else if s[..|sep|] == sep {
      SplitLeftmost(s[|sep|..], sep);
      var rest := Split(s[|sep|..], sep);
      assert r == [""] + rest;
      forall i | 0 <= i < |r| - 1 ensures !Occurs(r[i] + early, sep) {
        if i > 0 {
          assert r[i] == rest[i - 1];
        }
      }
    } else {
      SplitLeftmost(s[1..], sep);
      var rest := Split(s[1..], sep);
      assert r == [[s[0]] + rest[0]] + rest[1..];
      forall i | 0 <= i < |r| - 1 ensures !Occurs(r[i] + early, sep) {
        if i == 0 {
          SplitFirstCut(s[1..], sep);
          assert [s[0]] + s[1..] == s;
          HeadPieceLeftmost(s[0], s[1..], rest[0], sep);
        } else {
          assert r[i] == rest[i];
        }
      }
    }
  }

  /** A separator of one character never appears inside a piece. */
  lemma SplitPiecesAvoidChar(s: string, c: char)
    ensures forall i :: 0 <= i < |Split(s, [c])| ==> c !in Split(s, [c])[i]
  {
    SplitPiecesAvoidSeparator(s, [c]);
    forall i | 0 <= i < |Split(s, [c])| ensures c !in Split(s, [c])[i] {
      var piece := Split(s, [c])[i];
      if c in piece {
        var k :| 0 <= k < |piece| && piece[k] == c;
        assert piece[k..k + 1] == [c];
        assert OccursAt(piece, [c], k);
      }
    }
  }

  /** `filter` distributes over concatenation. */
  lemma {:induction false} NonEmptyAppend(xs: seq<string>, ys: seq<string>)
    ensures NonEmpty(xs + ys) == NonEmpty(xs) + NonEmpty(ys)
  {
    if xs == [] {
      assert xs + ys == ys;
    } else {
      assert (xs + ys)[1..] == xs[1..] + ys;
      NonEmptyAppend(xs[1..], ys);
    }
  }
}
