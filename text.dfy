/** Text primitives with the semantics of the JavaScript built-ins the
    extractor relies on: the regular-expression classes `\s` and `\w`,
    `String.prototype.trim`, `String.prototype.split` with a one-character
    separator and `Array.prototype.join`. Characters are Unicode scalar values. */
module Text {

  /** `\s` of a regular expression and the characters `trim()` removes:
      ECMAScript WhiteSpace and LineTerminator, the same set for both. The set
      is the union of the eleven code-point ranges of `SpaceRange`. */
  predicate IsSpace(c: char) {
    SpaceBelow(c, 11)
  }

  /** `c` lies in one of the first `n` ranges. */
  predicate SpaceBelow(c: char, n: nat) {
    n > 0 && (SpaceRange(c, n - 1) || SpaceBelow(c, n - 1))
  }

  /** Range `i` of the white-space set: tab to carriage return, space,
      no-break space, Ogham space mark, en quad to hair space, line separator,
      paragraph separator, narrow no-break space, medium mathematical space,
      ideographic space and the byte-order mark. */
  predicate SpaceRange(c: char, i: nat) {
    var n := c as int;
    if i == 0 then 0x09 <= n <= 0x0D
    else if i == 1 then n == 0x20
    else if i == 2 then n == 0xA0
    else if i == 3 then n == 0x1680
    else if i == 4 then 0x2000 <= n <= 0x200A
    else if i == 5 then n == 0x2028
    else if i == 6 then n == 0x2029
    else if i == 7 then n == 0x202F
    else if i == 8 then n == 0x205F
    else if i == 9 then n == 0x3000
    else i == 10 && n == 0xFEFF
  }

  /** No white-space character is printable ASCII other than the space itself. */
  lemma {:induction false} SpaceBelowCode(c: char, n: nat)
    requires SpaceBelow(c, n)
    ensures c as int <= 0x20 || 0xA0 <= c as int
  {
    if !SpaceRange(c, n - 1) {
      SpaceBelowCode(c, n - 1);
    }
  }

  lemma SpaceCode(c: char)
    requires IsSpace(c)
    ensures c as int <= 0x20 || 0xA0 <= c as int
  {
    SpaceBelowCode(c, 11);
  }

  /** `\w` of a regular expression without the `u` flag: ASCII letters, digits and `_`. */
  predicate IsWordChar(c: char) {
    ('a' <= c <= 'z') || ('A' <= c <= 'Z') || ('0' <= c <= '9') || c == '_'
  }

  predicate AllSpace(s: string) {
    forall k {:trigger IsSpace(s[k])} :: 0 <= k < |s| ==> IsSpace(s[k])
  }

  /** Removes leading white space. */
  function TrimStart(s: string): string {
    if s != [] && IsSpace(s[0]) then TrimStart(s[1..]) else s
  }

  /** Removes trailing white space. */
  function TrimEnd(s: string): string {
    if s != [] && IsSpace(s[|s| - 1]) then TrimEnd(s[..|s| - 1]) else s
  }

  /** `String.prototype.trim`. */
  function Trim(s: string): string {
    TrimEnd(TrimStart(s))
  }

  lemma {:induction false} TrimStartParts(s: string) returns (w: string)
    ensures s == w + TrimStart(s) && AllSpace(w)
    ensures TrimStart(s) == [] || !IsSpace(TrimStart(s)[0])
  {
    if s != [] && IsSpace(s[0]) {
      var w' := TrimStartParts(s[1..]);
      w := [s[0]] + w';
      assert s == [s[0]] + s[1..];
      forall k | 0 <= k < |w| ensures IsSpace(w[k]) {
        if k > 0 { assert w[k] == w'[k - 1]; }
      }
    } else {
      w := [];
    }
  }

  lemma {:induction false} TrimEndParts(s: string) returns (w: string)
    ensures s == TrimEnd(s) + w && AllSpace(w)
    ensures TrimEnd(s) == [] || !IsSpace(TrimEnd(s)[|TrimEnd(s)| - 1])
  {
    if s != [] && IsSpace(s[|s| - 1]) {
      var w' := TrimEndParts(s[..|s| - 1]);
      w := w' + [s[|s| - 1]];
      assert s == s[..|s| - 1] + [s[|s| - 1]];
      forall k | 0 <= k < |w| ensures IsSpace(w[k]) {
        if k < |w'| { assert w[k] == w'[k]; }
      }
    } else {
      w := [];
    }
  }

  /** What `trim()` returns: its argument with only white space cut off
      either side, and no white space left at either end. */
  lemma TrimParts(s: string) returns (w1: string, w2: string)
    ensures s == w1 + Trim(s) + w2 && AllSpace(w1) && AllSpace(w2)
    ensures Trim(s) == [] || (!IsSpace(Trim(s)[0]) && !IsSpace(Trim(s)[|Trim(s)| - 1]))
  {
    w1 := TrimStartParts(s);
    var t := TrimStart(s);
    w2 := TrimEndParts(t);
    var u := TrimEnd(t);
    assert u != [] ==> u[0] == t[0];
  }

  lemma {:induction false} TrimStartAfterSpace(w: string, x: string)
    requires AllSpace(w)
    ensures TrimStart(w + x) == TrimStart(x)
  {
    if w != [] {
      assert (w + x)[0] == w[0] && IsSpace(w[0]);
      assert (w + x)[1..] == w[1..] + x;
      var w' := w[1..];
      assert AllSpace(w') by {
        forall k | 0 <= k < |w'| ensures IsSpace(w'[k]) { assert w'[k] == w[k + 1]; }
      }
      TrimStartAfterSpace(w[1..], x);
    } else {
      assert w + x == x;
    }
  }

  lemma {:induction false} TrimEndBeforeSpace(x: string, w: string)
    requires AllSpace(w)
    ensures TrimEnd(x + w) == TrimEnd(x)
  {
    if w != [] {
      assert (x + w)[|x + w| - 1] == w[|w| - 1] && IsSpace(w[|w| - 1]);
      assert (x + w)[..|x + w| - 1] == x + w[..|w| - 1];
      var w' := w[..|w| - 1];
      assert AllSpace(w') by {
        forall k | 0 <= k < |w'| ensures IsSpace(w'[k]) { assert w'[k] == w[k]; }
      }
      TrimEndBeforeSpace(x, w[..|w| - 1]);
    } else {
      assert x + w == x;
    }
  }

  lemma {:induction false} TrimStartAppend(x: string, y: string)
    requires TrimStart(x) != []
    ensures TrimStart(x + y) == TrimStart(x) + y
  {
    assert x != [];
    if IsSpace(x[0]) {
      assert (x + y)[1..] == x[1..] + y;
      TrimStartAppend(x[1..], y);
    }
  }

  /** Trimming ignores any white space around its argument. */
  lemma TrimSurrounded(w1: string, m: string, w2: string)
    requires AllSpace(w1) && AllSpace(w2)
    ensures Trim(w1 + m + w2) == Trim(m)
  {
    assert w1 + m + w2 == w1 + (m + w2);
    TrimStartAfterSpace(w1, m + w2);
    if TrimStart(m) == [] {
      var w := TrimStartParts(m);
      assert m == w;
      assert AllSpace(m + w2);
      TrimStartAfterSpace(m + w2, []);
      assert m + w2 + [] == m + w2;
    } else {
      TrimStartAppend(m, w2);
      TrimEndBeforeSpace(TrimStart(m), w2);
    }
  }

  /** Text that neither starts nor ends with white space is its own trim. */
  lemma TrimSolid(x: string)
    requires x == [] || (!IsSpace(x[0]) && !IsSpace(x[|x| - 1]))
    ensures Trim(x) == x
  {
  }

  /** Trimming twice is trimming once. */
  lemma TrimIdempotent(s: string)
    ensures Trim(Trim(s)) == Trim(s)
  {
    var _, _ := TrimParts(s);
  }

  /** The number of occurrences of `c` in `s`. */
  function Count(c: char, s: string): nat {
    if s == [] then 0 else (if s[0] == c then 1 else 0) + Count(c, s[1..])
  }

  lemma {:induction false} CountAbsent(c: char, s: string)
    requires c !in s
    ensures Count(c, s) == 0
  {
    if s != [] { CountAbsent(c, s[1..]); }
  }

  lemma {:induction false} CountPresent(c: char, s: string)
    requires c in s
    ensures Count(c, s) > 0
  {
    if s[0] != c {
      assert c in s[1..];
      CountPresent(c, s[1..]);
    }
  }

  lemma {:induction false} CountAppend(c: char, x: string, y: string)
    ensures Count(c, x + y) == Count(c, x) + Count(c, y)
  {
    if x != [] {
      assert (x + y)[1..] == x[1..] + y;
      CountAppend(c, x[1..], y);
    } else {
      assert x + y == y;
    }
  }

  lemma SpaceFree(c: char, w: string)
    requires AllSpace(w) && !IsSpace(c)
    ensures c !in w && Count(c, w) == 0
  {
    assert c !in w;
    CountAbsent(c, w);
  }

  /** Trimming removes only white space, so it keeps every other character. */
  lemma TrimKeepsCount(c: char, s: string)
    requires !IsSpace(c)
    ensures Count(c, Trim(s)) == Count(c, s)
  {
    var w1, w2 := TrimParts(s);
    var m := Trim(s);
    CountAppend(c, w1 + m, w2);
    CountAppend(c, w1, m);
    assert Count(c, s) == Count(c, w1) + Count(c, m) + Count(c, w2);
    SpaceFree(c, w1);
    SpaceFree(c, w2);
  }

  /** `s.split(c)` for a one-character separator `c`: the pieces between the
      occurrences of `c`, always at least one. */
  function SplitOn(s: string, c: char): (r: seq<string>)
    ensures |r| == Count(c, s) + 1
  {
    if s == [] then [[]]
    else
      var rest := SplitOn(s[1..], c);
      if s[0] == c then [[]] + rest else [[s[0]] + rest[0]] + rest[1..]
  }

  /** No piece of a split holds the separator. */
  lemma {:induction false} SplitOnPiecesFree(s: string, c: char)
    ensures forall k :: 0 <= k < |SplitOn(s, c)| ==> c !in SplitOn(s, c)[k]
  {
    if s != [] {
      SplitOnPiecesFree(s[1..], c);
      var rest := SplitOn(s[1..], c);
      if s[0] != c {
        assert c !in [s[0]] + rest[0];
        assert SplitOn(s, c) == [[s[0]] + rest[0]] + rest[1..];
        forall k | 1 <= k < |SplitOn(s, c)| ensures c !in SplitOn(s, c)[k] {
          assert SplitOn(s, c)[k] == rest[k];
        }
      } else {
        forall k | 1 <= k < |SplitOn(s, c)| ensures c !in SplitOn(s, c)[k] {
          assert SplitOn(s, c)[k] == rest[k - 1];
        }
      }
    }
  }

  /** Characters other than white space survive trimming only if they were there. */
  lemma TrimKeepsAbsence(c: char, s: string)
    requires !IsSpace(c) && c !in s
    ensures c !in Trim(s)
  {
    CountAbsent(c, s);
    TrimKeepsCount(c, s);
    if c in Trim(s) {
      CountPresent(c, Trim(s));
    }
  }

  /** `xs.join(sep)`. */
  function Join(xs: seq<string>, sep: string): string {
    if |xs| == 0 then [] else if |xs| == 1 then xs[0] else xs[0] + sep + Join(xs[1..], sep)
  }

  /** Splitting and joining again with the same separator gives the text back. */
  lemma {:induction false} JoinSplitOn(s: string, c: char)
    ensures Join(SplitOn(s, c), [c]) == s
  {
    if s != [] {
      JoinSplitOn(s[1..], c);
      var rest := SplitOn(s[1..], c);
      if s[0] == c {
        assert SplitOn(s, c) == [[]] + rest;
        assert ([[]] + rest)[1..] == rest;
      } else {
        var r := SplitOn(s, c);
        assert r == [[s[0]] + rest[0]] + rest[1..];
        if |rest| == 1 {
          assert Join(rest, [c]) == rest[0];
        } else {
          assert r[1..] == rest[1..];
          assert Join(rest, [c]) == rest[0] + [c] + Join(rest[1..], [c]);
        }
      }
    }
  }

  /** A piece free of the separator stays whole. */
  lemma {:induction false} SplitOnAbsent(s: string, c: char)
    requires c !in s
    ensures SplitOn(s, c) == [s]
  {
    if s != [] {
      assert s[0] != c;
      assert c !in s[1..];
      SplitOnAbsent(s[1..], c);
      assert [s[0]] + s[1..] == s;
    }
  }

  /** Splitting text that begins with a separator-free `x` and a separator. */
  lemma {:induction false} SplitOnAfter(x: string, c: char, y: string)
    requires c !in x
    ensures SplitOn(x + [c] + y, c) == [x] + SplitOn(y, c)
  {
    if x == [] {
      assert x + [c] + y == [c] + y;
      assert ([c] + y)[1..] == y;
    } else {
      assert (x + [c] + y)[1..] == x[1..] + [c] + y;
      assert c !in x[1..];
      SplitOnAfter(x[1..], c, y);
      assert [x[0]] + x[1..] == x;
    }
  }

  /** Joining separator-free pieces and splitting again gives the pieces back. */
  lemma {:induction false} SplitOnJoin(xs: seq<string>, c: char)
    requires |xs| > 0
    requires forall k :: 0 <= k < |xs| ==> c !in xs[k]
    ensures SplitOn(Join(xs, [c]), c) == xs
  {
    if |xs| == 1 {
      SplitOnAbsent(xs[0], c);
    } else {
      SplitOnJoin(xs[1..], c);
      SplitOnAfter(xs[0], c, Join(xs[1..], [c]));
      assert [xs[0]] + xs[1..] == xs;
    }
  }

  /** Splitting text that begins with separator-free `w`. */
  lemma {:induction false} SplitOnPrefix(w: string, y: string, c: char)
    requires c !in w
    ensures var r := SplitOn(y, c); SplitOn(w + y, c) == [w + r[0]] + r[1..]
  {
    if w != [] {
      assert (w + y)[1..] == w[1..] + y;
      assert c !in w[1..];
      SplitOnPrefix(w[1..], y, c);
      assert [w[0]] + (w[1..] + SplitOn(y, c)[0]) == w + SplitOn(y, c)[0];
    } else {
      var r := SplitOn(y, c);
      assert w + y == y;
      assert w + r[0] == r[0];
      assert [r[0]] + r[1..] == r;
    }
  }

  /** Splitting text that ends with separator-free `w`. */
  lemma {:induction false} SplitOnSuffix(y: string, w: string, c: char)
    requires c !in w
    ensures var r := SplitOn(y, c); SplitOn(y + w, c) == r[..|r| - 1] + [r[|r| - 1] + w]
  {
    if y == [] {
      SplitOnAbsent(w, c);
      assert y + w == w;
      assert SplitOn(y, c) == [[]];
    } else {
      SplitOnSuffix(y[1..], w, c);
      assert (y + w)[0] == y[0];
      assert (y + w)[1..] == y[1..] + w;
      if y[0] == c {
        ExtendLastAfterCons([], SplitOn(y[1..], c), w);
      } else {
        ExtendLastAfterGrow(y[0], SplitOn(y[1..], c), w);
      }
    }
  }

  /** A separator at the end of the text adds one empty piece. */
  lemma {:induction false} SplitOnTrailing(y: string, c: char)
    ensures SplitOn(y + [c], c) == SplitOn(y, c) + [[]]
  {
    if y == [] {
      assert y + [c] == [c];
      assert [c][1..] == [];
    } else {
      SplitOnTrailing(y[1..], c);
      assert (y + [c])[0] == y[0];
      assert (y + [c])[1..] == y[1..] + [c];
      var r := SplitOn(y[1..], c);
      if y[0] != c {
        assert (r + [[]])[0] == r[0];
        assert (r + [[]])[1..] == r[1..] + [[]];
      }
    }
  }

  /** Extending the last piece commutes with adding a piece in front. */
  lemma ExtendLastAfterCons<T>(h: seq<T>, r: seq<seq<T>>, w: seq<T>)
    requires r != []
    ensures var e := r[..|r| - 1] + [r[|r| - 1] + w];
      var hr := [h] + r;
      [h] + e == hr[..|hr| - 1] + [hr[|hr| - 1] + w]
  {
    var hr := [h] + r;
    assert hr[..|hr| - 1] == [h] + r[..|r| - 1];
  }

  /** Extending the last piece commutes with growing the first piece at
      its front. */
  lemma ExtendLastAfterGrow<T>(a: T, r: seq<seq<T>>, w: seq<T>)
    requires r != []
    ensures var e := r[..|r| - 1] + [r[|r| - 1] + w];
      var g := [[a] + r[0]] + r[1..];
      [[a] + e[0]] + e[1..] == g[..|g| - 1] + [g[|g| - 1] + w]
  {
    var e := r[..|r| - 1] + [r[|r| - 1] + w];
    var g := [[a] + r[0]] + r[1..];
    if |r| == 1 {
      assert e == [r[0] + w];
      assert [a] + (r[0] + w) == ([a] + r[0]) + w;
    } else {
      assert e[0] == r[0];
      assert e[1..] == r[1..|r| - 1] + [r[|r| - 1] + w];
      assert g[..|g| - 1] == [[a] + r[0]] + r[1..|r| - 1];
    }
  }

  lemma AppendAssoc(x: string, y: string, z: string)
    ensures x + y + z == x + (y + z)
  {
  }

  /** Every piece, trimmed: `parts.map((s) => s.trim())`. */
  function TrimAll(xs: seq<string>): (r: seq<string>)
    ensures |r| == |xs|
    ensures forall k :: 0 <= k < |xs| ==> r[k] == Trim(xs[k])
  {
    seq(|xs|, k requires 0 <= k < |xs| => Trim(xs[k]))
  }

  /** Splitting text padded with white space gives the pieces of the unpadded
      text, up to white space at the ends of the first and last piece. */
  lemma SplitOnPadded(w1: string, m: string, w2: string, c: char)
    requires AllSpace(w1) && AllSpace(w2) && !IsSpace(c)
    ensures TrimAll(SplitOn(w1 + m + w2, c)) == TrimAll(SplitOn(m, c))
  {
    AppendAssoc(w1, m, w2);
    SpaceFree(c, w1);
    SpaceFree(c, w2);
    SplitOnPrefix(w1, m + w2, c);
    SplitOnSuffix(m, w2, c);
    var r := SplitOn(m, c);
    var full := SplitOn(w1 + m + w2, c);
    PaddedPieces(w1, r, w2, SplitOn(m + w2, c), full);
    forall k | 0 <= k < |r|
      ensures Trim(full[k]) == Trim(r[k])
    {
      TrimSurrounded(if k == 0 then w1 else [], r[k], if k == |r| - 1 then w2 else []);
    }
  }

  /** The pieces of `w1 + m + w2` as `SplitOnPrefix` and `SplitOnSuffix`
      give them: those of `m`, with `w1` before the first and `w2` after
      the last. */
  lemma PaddedPieces<T>(w1: seq<T>, r: seq<seq<T>>, w2: seq<T>, mid: seq<seq<T>>, full: seq<seq<T>>)
    requires r != [] && mid == r[..|r| - 1] + [r[|r| - 1] + w2] && full == [w1 + mid[0]] + mid[1..]
    ensures |full| == |r|
    ensures forall k :: 0 <= k < |r| ==>
      full[k] == (if k == 0 then w1 else []) + r[k] + (if k == |r| - 1 then w2 else [])
  {
    forall k | 0 <= k < |r|
      ensures full[k] == (if k == 0 then w1 else []) + r[k] + (if k == |r| - 1 then w2 else [])
    {
      var pre: seq<T> := if k == 0 then w1 else [];
      var post: seq<T> := if k == |r| - 1 then w2 else [];
      assert mid[k] == r[k] + post;
      assert full[k] == pre + mid[k];
      assert pre + (r[k] + post) == pre + r[k] + post;
    }
  }

  /** Trimming the text before splitting it at a non-space separator makes no
      difference once every piece is trimmed too. */
  lemma TrimThenSplit(s: string, c: char)
    requires !IsSpace(c)
    ensures TrimAll(SplitOn(Trim(s), c)) == TrimAll(SplitOn(s, c))
  {
    var w1, w2 := TrimParts(s);
    SplitOnPadded(w1, Trim(s), w2, c);
  }

  /** No white space at either end. */
  predicate Solid(x: string) {
    x == [] || (!IsSpace(x[0]) && !IsSpace(x[|x| - 1]))
  }

  lemma OneSpace()
    ensures AllSpace(" ")
  {
    assert IsSpace(' ');
  }

  lemma TrimAllCons(x: string, xs: seq<string>)
    ensures TrimAll([x] + xs) == [Trim(x)] + TrimAll(xs)
  {
  }

  /** A list joined with `", "` and split again at the commas gives the
      items back once each piece is trimmed, when no item holds a comma or
      begins or ends with white space. */
  lemma {:induction false} SplitCommaList(xs: seq<string>)
    requires |xs| > 0
    requires forall k :: 0 <= k < |xs| ==> ',' !in xs[k] && Solid(xs[k])
    ensures TrimAll(SplitOn(Join(xs, ", "), ',')) == xs
    decreases |xs|
  {
    if |xs| == 1 {
      SplitOnAbsent(xs[0], ',');
      TrimSolid(xs[0]);
    } else {
      SplitCommaList(xs[1..]);
      CommaListStep(xs);
    }
  }

  /** The step of `SplitCommaList`: the first item, then the rest. */
  lemma CommaListStep(xs: seq<string>)
    requires |xs| > 1 && ',' !in xs[0] && Solid(xs[0])
    requires TrimAll(SplitOn(Join(xs[1..], ", "), ',')) == xs[1..]
    ensures TrimAll(SplitOn(Join(xs, ", "), ',')) == xs
  {
    CommaThenPadded(xs[0], Join(xs[1..], ", "), xs[1..]);
    assert [xs[0]] + xs[1..] == xs;
  }

  /** An item, a comma and text after one space split into the item and the
      pieces of that text, once trimmed. */
  lemma CommaThenPadded(x: string, rest: string, tail: seq<string>)
    requires ',' !in x && Solid(x) && TrimAll(SplitOn(rest, ',')) == tail
    ensures TrimAll(SplitOn(x + ", " + rest, ',')) == [x] + tail
  {
    assert x + ", " + rest == x + [','] + (" " + rest);
    SplitOnAfter(x, ',', " " + rest);
    OneSpace();
    if IsSpace(',') {
      SpaceCode(',');
    }
    SplitOnPadded(" ", rest, [], ',');
    assert " " + rest + [] == " " + rest;
    TrimSolid(x);
    TrimAllCons(x, SplitOn(" " + rest, ','));
  }
}
