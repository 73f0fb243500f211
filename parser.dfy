/** The signature extractor of `src/parser.ts`: a global, left-to-right scan
    of Rust source text for the pattern

      #\[no_mangle\]\s+pub\s+extern\s+"C"\s+fn\s+(\w+)\s*\(([^)]*)\)\s*(?:->\s*([^{]+))?\s*\{

    after which every match's parameter text is cut at commas and colons.
    The pattern is described declaratively by `IsSplit` (where each piece of
    a match lies), recognised by the hand-written `MatchAt` (which picks the
    same captures as a backtracking engine), and scanned by `ParseRustFile`. */
module Parser {
  import opened Wrappers
  import opened Text

  /** `FunctionArg`; `argType` is `None` where the program holds `undefined`. */
  datatype FunctionArg = FunctionArg(name: string, argType: Option<string>)

  datatype FunctionSignature = FunctionSignature(name: string, args: seq<FunctionArg>, returnType: string)

  /** Where the keywords `pub`, `extern`, `"C"` and `fn` of one match start. */
  datatype Keywords = Keywords(pub: nat, ext: nat, abi: nat, fnKw: nat)

  /** Where the function name starts and ends, and where the two parentheses are. */
  datatype Head = Head(name: nat, nameEnd: nat, open: nat, close: nat)

  /** Whether the `->` clause is present and, if so, where `->` is and where
      the third capture group lies; and where the opening brace is. */
  datatype Tail = Tail(hasReturn: bool, arrow: nat, retStart: nat, retEnd: nat, brace: nat)

  /** The positions of the pieces of one match. */
  datatype Split = Split(kw: Keywords, head: Head, tail: Tail)

  const Marker: string := "#[no_mangle]"

  /** The text `lit` occurs in `s` at `a`. */
  predicate LitAt(s: string, a: nat, lit: string) {
    a + |lit| <= |s| && forall j :: 0 <= j < |lit| ==> s[a + j] == lit[j]
  }

  /** `s[a..b]` matches `\s*`. */
  predicate SpacesIn(s: string, a: nat, b: nat) {
    a <= b <= |s| && forall k {:trigger IsSpace(s[k])} :: a <= k < b ==> IsSpace(s[k])
  }

  /** `s[a..b]` matches `\w*`. */
  predicate WordsIn(s: string, a: nat, b: nat) {
    a <= b <= |s| && forall k {:trigger IsWordChar(s[k])} :: a <= k < b ==> IsWordChar(s[k])
  }

  /** `s[a..b]` matches `[^c]*`. */
  predicate Avoids(s: string, a: nat, b: nat, c: char) {
    a <= b <= |s| && forall k :: a <= k < b ==> s[k] != c
  }

  /** `#\[no_mangle\]\s+pub\s+extern\s+"C"\s+fn` from `i`. */
  predicate KeywordsAt(s: string, i: nat, k: Keywords) {
    && LitAt(s, i, Marker)
    && i + 12 < k.pub && SpacesIn(s, i + 12, k.pub) && LitAt(s, k.pub, "pub")
    && k.pub + 3 < k.ext && SpacesIn(s, k.pub + 3, k.ext) && LitAt(s, k.ext, "extern")
    && k.ext + 6 < k.abi && SpacesIn(s, k.ext + 6, k.abi) && LitAt(s, k.abi, "\"C\"")
    && k.abi + 3 < k.fnKw && SpacesIn(s, k.abi + 3, k.fnKw) && LitAt(s, k.fnKw, "fn")
  }

  /** `\s+(\w+)\s*\(([^)]*)\)` from `from`. */
  predicate HeadAt(s: string, from: nat, h: Head) {
    && from < h.name && SpacesIn(s, from, h.name)
    && h.name < h.nameEnd && WordsIn(s, h.name, h.nameEnd)
    && SpacesIn(s, h.nameEnd, h.open) && h.open < |s| && s[h.open] == '('
    && h.open < h.close < |s| && Avoids(s, h.open + 1, h.close, ')') && s[h.close] == ')'
  }

  /** `\s*(?:->\s*([^{]+))?\s*\{` after the closing parenthesis at `close`.
      Without the optional group the two `\s*` are adjacent and are taken as
      one run. */
  predicate TailAt(s: string, close: nat, t: Tail) {
    && close < |s|
    && (if t.hasReturn then
          && SpacesIn(s, close + 1, t.arrow) && LitAt(s, t.arrow, "->")
          && SpacesIn(s, t.arrow + 2, t.retStart) && t.retStart < t.retEnd
          && Avoids(s, t.retStart, t.retEnd, '{') && SpacesIn(s, t.retEnd, t.brace)
        else SpacesIn(s, close + 1, t.brace))
    && t.brace < |s| && s[t.brace] == '{'
  }

  /** The pattern matches `s[i..sp.tail.brace + 1]` with its pieces where `sp` says. */
  predicate IsSplit(s: string, i: nat, sp: Split) {
    KeywordsAt(s, i, sp.kw) && HeadAt(s, sp.kw.fnKw + 2, sp.head) && TailAt(s, sp.head.close, sp.tail)
  }

  /** Some match of the pattern starts at `i`. */
  ghost predicate MatchesAt(s: string, i: nat) {
    exists sp :: IsSplit(s, i, sp)
  }

  // ---------------------------------------------------------------------
  // The recogniser

  /** Skips a maximal run of `\s`. */
  function SkipSpace(s: string, from: nat): (k: nat)
    requires from <= |s|
    ensures from <= k <= |s|
    decreases |s| - from
  {
    if from < |s| && IsSpace(s[from]) then SkipSpace(s, from + 1) else from
  }

  lemma {:induction false} SkipSpaceSpec(s: string, from: nat)
    requires from <= |s|
    ensures var k := SkipSpace(s, from); SpacesIn(s, from, k) && (k < |s| ==> !IsSpace(s[k]))
    decreases |s| - from
  {
    if from < |s| && IsSpace(s[from]) {
      SkipSpaceSpec(s, from + 1);
    }
  }

  /** Skips a maximal run of `\w`. */
  function SkipWord(s: string, from: nat): (k: nat)
    requires from <= |s|
    ensures from <= k <= |s|
    decreases |s| - from
  {
    if from < |s| && IsWordChar(s[from]) then SkipWord(s, from + 1) else from
  }

  lemma {:induction false} SkipWordSpec(s: string, from: nat)
    requires from <= |s|
    ensures var k := SkipWord(s, from); WordsIn(s, from, k) && (k < |s| ==> !IsWordChar(s[k]))
    decreases |s| - from
  {
    if from < |s| && IsWordChar(s[from]) {
      SkipWordSpec(s, from + 1);
    }
  }

  /** The first index at or after `from` holding `c`, or `|s|` if there is none. */
  function Find(s: string, from: nat, c: char): (k: nat)
    requires from <= |s|
    ensures from <= k <= |s|
    decreases |s| - from
  {
    if from < |s| && s[from] != c then Find(s, from + 1, c) else from
  }

  lemma {:induction false} FindSpec(s: string, from: nat, c: char)
    requires from <= |s|
    ensures var k := Find(s, from, c); Avoids(s, from, k, c) && (k < |s| ==> s[k] == c)
    decreases |s| - from
  {
    if from < |s| && s[from] != c {
      FindSpec(s, from + 1, c);
    }
  }

  /** `\s+` followed by the keyword `kw`: where the keyword starts. */
  function SpacedKeyword(s: string, from: nat, kw: string): (r: Option<nat>)
    requires from <= |s|
    ensures r.Some? ==> from < r.value <= |s|
  {
    var k := SkipSpace(s, from);
    if k > from && LitAt(s, k, kw) then Some(k) else None
  }

  lemma SpacedKeywordSpec(s: string, from: nat, kw: string, b: nat)
    requires from <= |s| && SpacedKeyword(s, from, kw) == Some(b)
    ensures SpacesIn(s, from, b) && LitAt(s, b, kw)
  {
    SkipSpaceSpec(s, from);
  }

  function MatchKeywords(s: string, i: nat): (r: Option<Keywords>)
    requires i <= |s|
  {
    if !LitAt(s, i, Marker) then None else
    var pub := SpacedKeyword(s, i + 12, "pub");
    if pub.None? then None else
    var ext := SpacedKeyword(s, pub.value + 3, "extern");
    if ext.None? then None else
    var abi := SpacedKeyword(s, ext.value + 6, "\"C\"");
    if abi.None? then None else
    var fnKw := SpacedKeyword(s, abi.value + 3, "fn");
    if fnKw.None? then None else
    Some(Keywords(pub.value, ext.value, abi.value, fnKw.value))
  }

  function MatchHead(s: string, from: nat): (r: Option<Head>)
    requires from <= |s|
  {
    var name := SkipSpace(s, from);
    if name == from then None else
    var nameEnd := SkipWord(s, name);
    if nameEnd == name then None else
    var open := SkipSpace(s, nameEnd);
    if open == |s| || s[open] != '(' then None else
    var close := Find(s, open + 1, ')');
    if close == |s| then None else
    Some(Head(name, nameEnd, open, close))
  }

  /** Every quantifier is greedy and, but for one, every piece starts with a
      character the run before it cannot contain, so the engine takes each
      run whole. The exception is inside the `->` clause: when `{` follows
      `->` and its white space directly, `\s*` gives back one character so
      that `[^{]+` can match it. */
  function MatchTail(s: string, close: nat): (r: Option<Tail>)
    requires close < |s|
    ensures r.Some? ==> close < r.value.brace < |s| && r.value.retStart <= r.value.retEnd <= r.value.brace
  {
    var q := SkipSpace(s, close + 1);
    if LitAt(s, q, "->") then
      var brace := Find(s, q + 2, '{');
      if brace == |s| || brace == q + 2 then None else
      var r := SkipSpace(s, q + 2);
      var retStart := if r < brace then r else brace - 1;
      Some(Tail(true, q, retStart, brace, brace))
    else if q < |s| && s[q] == '{' then Some(Tail(false, q, q, q, q))
    else None
  }

  /** What the regular-expression engine finds when it tries the pattern at
      position `i`. */
  function MatchAt(s: string, i: nat): (r: Option<Split>)
    requires i <= |s|
  {
    var kw := MatchKeywords(s, i);
    if kw.None? then None else
    var head := MatchHead(s, kw.value.fnKw + 2);
    if head.None? then None else
    var tail := MatchTail(s, head.value.close);
    if tail.None? then None else
    Some(Split(kw.value, head.value, tail.value))
  }

  // ---------------------------------------------------------------------
  // The recogniser finds every match, and all matches at one position agree

  /** White space is none of the characters the pattern stops at. */
  lemma SpaceIsNoDelimiter(c: char)
    requires IsSpace(c)
    ensures !IsWordChar(c) && c != '{' && c != '(' && c != ')' && c != '-'
  {
    SpaceCode(c);
  }

  lemma SkipSpaceStops(s: string, a: nat, b: nat)
    requires SpacesIn(s, a, b) && (b == |s| || !IsSpace(s[b]))
    ensures SkipSpace(s, a) == b
    decreases b - a
  {
    if a < b {
      SkipSpaceStops(s, a + 1, b);
    }
  }

  lemma SkipWordStops(s: string, a: nat, b: nat)
    requires WordsIn(s, a, b) && (b == |s| || !IsWordChar(s[b]))
    ensures SkipWord(s, a) == b
    decreases b - a
  {
    if a < b {
      SkipWordStops(s, a + 1, b);
    }
  }

  lemma FindStops(s: string, a: nat, b: nat, c: char)
    requires Avoids(s, a, b, c) && b < |s| && s[b] == c
    ensures Find(s, a, c) == b
    decreases b - a
  {
    if a < b {
      FindStops(s, a + 1, b, c);
    }
  }

  lemma LitHead(s: string, a: nat, lit: string)
    requires LitAt(s, a, lit) && |lit| > 0
    ensures s[a] == lit[0]
  {
    assert s[a + 0] == lit[0];
  }

  lemma SpacedKeywordFinds(s: string, from: nat, b: nat, kw: string)
    requires from < b && SpacesIn(s, from, b) && LitAt(s, b, kw)
    requires |kw| > 0 && !IsSpace(kw[0])
    ensures SpacedKeyword(s, from, kw) == Some(b)
  {
    LitHead(s, b, kw);
    SkipSpaceStops(s, from, b);
  }

  // Soundness: what the recogniser reports is a match

  lemma MatchKeywordsSound(s: string, i: nat, k: Keywords)
    requires i <= |s| && MatchKeywords(s, i) == Some(k)
    ensures KeywordsAt(s, i, k)
  {
    SpacedKeywordSpec(s, i + 12, "pub", k.pub);
    SpacedKeywordSpec(s, k.pub + 3, "extern", k.ext);
    SpacedKeywordSpec(s, k.ext + 6, "\"C\"", k.abi);
    SpacedKeywordSpec(s, k.abi + 3, "fn", k.fnKw);
  }

  lemma MatchHeadSound(s: string, from: nat, h: Head)
    requires from <= |s| && MatchHead(s, from) == Some(h)
    ensures HeadAt(s, from, h)
  {
    SkipSpaceSpec(s, from);
    SkipWordSpec(s, h.name);
    SkipSpaceSpec(s, h.nameEnd);
    FindSpec(s, h.open + 1, ')');
  }

  lemma MatchTailSound(s: string, close: nat, t: Tail)
    requires close < |s| && MatchTail(s, close) == Some(t)
    ensures TailAt(s, close, t)
  {
    var q := SkipSpace(s, close + 1);
    SkipSpaceSpec(s, close + 1);
    if LitAt(s, q, "->") {
      FindSpec(s, q + 2, '{');
      SkipSpaceSpec(s, q + 2);
    }
  }

  lemma MatchAtSound(s: string, i: nat, sp: Split)
    requires i <= |s| && MatchAt(s, i) == Some(sp)
    ensures IsSplit(s, i, sp)
  {
    MatchAtParts(s, i, sp);
    MatchKeywordsSound(s, i, sp.kw);
    MatchHeadSound(s, sp.kw.fnKw + 2, sp.head);
    MatchTailSound(s, sp.head.close, sp.tail);
  }

  /** A match is made of what the three stages found. */
  lemma MatchAtParts(s: string, i: nat, sp: Split)
    requires i <= |s| && MatchAt(s, i) == Some(sp)
    ensures MatchKeywords(s, i) == Some(sp.kw) && sp.kw.fnKw + 2 <= |s|
    ensures MatchHead(s, sp.kw.fnKw + 2) == Some(sp.head) && sp.head.close < |s|
    ensures MatchTail(s, sp.head.close) == Some(sp.tail)
  {
  }

  // Completeness: wherever the pattern matches, the recogniser reports it

  /** No keyword of the pattern starts with white space. */
  lemma KeywordsStartSolid()
    ensures !IsSpace("pub"[0]) && !IsSpace("extern"[0]) && !IsSpace("\"C\""[0]) && !IsSpace("fn"[0])
  {
    assert "pub"[0] == 'p' && "extern"[0] == 'e' && "\"C\""[0] == '"' && "fn"[0] == 'f';
  }

  lemma MatchKeywordsComplete(s: string, i: nat, k: Keywords)
    requires i <= |s| && KeywordsAt(s, i, k)
    ensures MatchKeywords(s, i) == Some(k)
  {
    KeywordsStartSolid();
    SpacedKeywordFinds(s, i + 12, k.pub, "pub");
    SpacedKeywordFinds(s, k.pub + 3, k.ext, "extern");
    SpacedKeywordFinds(s, k.ext + 6, k.abi, "\"C\"");
    SpacedKeywordFinds(s, k.abi + 3, k.fnKw, "fn");
    MatchKeywordsUnfold(s, i, k);
  }

  lemma MatchKeywordsUnfold(s: string, i: nat, k: Keywords)
    requires i + 12 <= k.pub && k.pub + 3 <= k.ext && k.ext + 6 <= k.abi && k.abi + 3 <= k.fnKw <= |s|
    requires LitAt(s, i, Marker)
    requires SpacedKeyword(s, i + 12, "pub") == Some(k.pub)
    requires SpacedKeyword(s, k.pub + 3, "extern") == Some(k.ext)
    requires SpacedKeyword(s, k.ext + 6, "\"C\"") == Some(k.abi)
    requires SpacedKeyword(s, k.abi + 3, "fn") == Some(k.fnKw)
    ensures MatchKeywords(s, i) == Some(k)
  {
  }

  lemma MatchHeadComplete(s: string, from: nat, h: Head)
    requires from <= |s| && HeadAt(s, from, h)
    ensures MatchHead(s, from) == Some(h)
  {
    assert IsWordChar(s[h.name]);
    if IsSpace(s[h.name]) {
      SpaceIsNoDelimiter(s[h.name]);
    }
    SkipSpaceStops(s, from, h.name);
    if h.nameEnd < h.open {
      assert IsSpace(s[h.nameEnd]);
      SpaceIsNoDelimiter(s[h.nameEnd]);
    }
    SkipWordStops(s, h.name, h.nameEnd);
    SkipSpaceStops(s, h.nameEnd, h.open);
    FindStops(s, h.open + 1, h.close, ')');
  }

  /** The text the third capture group trims to, when the clause is present. */
  function ReturnText(s: string, t: Tail): string
    requires t.hasReturn ==> t.retStart <= t.retEnd <= |s|
  {
    if t.hasReturn then Trim(s[t.retStart..t.retEnd]) else ""
  }

  /** The third capture group trims to the whole text between `->` and `{`,
      trimmed: how the group and the `\s*` around it share out the white
      space makes no difference. */
  lemma ReturnCaptureTrim(s: string, close: nat, t: Tail)
    requires TailAt(s, close, t) && t.hasReturn
    ensures ReturnText(s, t) == Trim(s[t.arrow + 2..t.brace])
  {
    var w1, m, w2 := s[t.arrow + 2..t.retStart], s[t.retStart..t.retEnd], s[t.retEnd..t.brace];
    assert s[t.arrow + 2..t.brace] == w1 + m + w2;
    assert AllSpace(w1) by {
      forall k | 0 <= k < |w1| ensures IsSpace(w1[k]) { assert w1[k] == s[t.arrow + 2 + k]; }
    }
    assert AllSpace(w2) by {
      forall k | 0 <= k < |w2| ensures IsSpace(w2[k]) { assert w2[k] == s[t.retEnd + k]; }
    }
    TrimSurrounded(w1, m, w2);
  }

  /** Two tails after one parenthesis find the same clause and brace, and
      their return captures trim to the same text. */
  predicate TailsAgree(s: string, a: Tail, b: Tail)
    requires a.hasReturn ==> a.retStart <= a.retEnd <= |s|
    requires b.hasReturn ==> b.retStart <= b.retEnd <= |s|
  {
    && a.hasReturn == b.hasReturn && a.brace == b.brace
    && (a.hasReturn ==> a.arrow == b.arrow)
    && ReturnText(s, a) == ReturnText(s, b)
  }

  lemma MatchTailComplete(s: string, close: nat, t: Tail)
    requires TailAt(s, close, t)
    ensures MatchTail(s, close).Some?
    ensures TailsAgree(s, MatchTail(s, close).value, t)
  {
    if t.hasReturn {
      ReturnTailComplete(s, close, t);
    } else {
      BareTailComplete(s, close, t);
    }
  }

  /** `MatchTailComplete` for a tail with a return type. */
  lemma ReturnTailComplete(s: string, close: nat, t: Tail)
    requires TailAt(s, close, t) && t.hasReturn
    ensures MatchTail(s, close).Some?
    ensures TailsAgree(s, MatchTail(s, close).value, t)
  {
    LitHead(s, t.arrow, "->");
    assert "->"[0] == '-' && !IsSpace('-');
    SkipSpaceStops(s, close + 1, t.arrow);
    assert SkipSpace(s, close + 1) == t.arrow;
    forall k | t.arrow + 2 <= k < t.brace ensures s[k] != '{' {
      if k < t.retStart || t.retEnd <= k {
        assert IsSpace(s[k]);
        SpaceIsNoDelimiter(s[k]);
      }
    }
    FindStops(s, t.arrow + 2, t.brace, '{');
    var r := MatchTail(s, close).value;
    assert r.hasReturn && r.arrow == t.arrow && r.brace == t.brace;
    ReturnCaptureTrim(s, close, t);
    MatchTailSound(s, close, r);
    ReturnCaptureTrim(s, close, r);
  }

  /** `MatchTailComplete` for a tail without a return type. */
  lemma BareTailComplete(s: string, close: nat, t: Tail)
    requires TailAt(s, close, t) && !t.hasReturn
    ensures MatchTail(s, close).Some?
    ensures TailsAgree(s, MatchTail(s, close).value, t)
  {
    var q := SkipSpace(s, close + 1);
    SkipSpaceStops(s, close + 1, t.brace);
    assert q == t.brace;
    assert !LitAt(s, q, "->") by {
      if LitAt(s, q, "->") { LitHead(s, q, "->"); }
    }
  }

  /** Two splits at one position locate the same name, parentheses, clause
      and brace, and their return captures trim to the same text. */
  predicate Agree(s: string, a: Split, b: Split)
    requires a.tail.hasReturn ==> a.tail.retStart <= a.tail.retEnd <= |s|
    requires b.tail.hasReturn ==> b.tail.retStart <= b.tail.retEnd <= |s|
  {
    a.head == b.head && TailsAgree(s, a.tail, b.tail)
  }

  /** Completeness of the recogniser: wherever the pattern matches, `MatchAt`
      reports a match, and it agrees with every other way of matching there. */
  lemma MatchAtComplete(s: string, i: nat, sp: Split)
    requires i <= |s| && IsSplit(s, i, sp)
    ensures MatchAt(s, i).Some?
    ensures Agree(s, MatchAt(s, i).value, sp)
  {
    StagesComplete(s, i, sp);
    MatchAtOfStages(s, i, sp);
  }

  /** Each stage of the recogniser finds its piece of a match. */
  lemma StagesComplete(s: string, i: nat, sp: Split)
    requires i <= |s| && IsSplit(s, i, sp)
    ensures sp.tail.hasReturn ==> sp.tail.retStart <= sp.tail.retEnd <= |s|
    ensures MatchKeywords(s, i) == Some(sp.kw) && sp.kw.fnKw + 2 <= |s|
    ensures MatchHead(s, sp.kw.fnKw + 2) == Some(sp.head) && sp.head.close < |s|
    ensures MatchTail(s, sp.head.close).Some? && TailsAgree(s, MatchTail(s, sp.head.close).value, sp.tail)
  {
    MatchKeywordsComplete(s, i, sp.kw);
    MatchHeadComplete(s, sp.kw.fnKw + 2, sp.head);
    MatchTailComplete(s, sp.head.close, sp.tail);
  }

  /** The recogniser succeeds when its three stages do. */
  lemma MatchAtOfStages(s: string, i: nat, sp: Split)
    requires sp.tail.hasReturn ==> sp.tail.retStart <= sp.tail.retEnd <= |s|
    requires i <= |s| && MatchKeywords(s, i) == Some(sp.kw) && sp.kw.fnKw + 2 <= |s|
    requires MatchHead(s, sp.kw.fnKw + 2) == Some(sp.head) && sp.head.close < |s|
    requires MatchTail(s, sp.head.close).Some? && TailsAgree(s, MatchTail(s, sp.head.close).value, sp.tail)
    ensures MatchAt(s, i).Some?
    ensures Agree(s, MatchAt(s, i).value, sp)
  {
    var t := MatchTail(s, sp.head.close).value;
    MatchAtOfParts(s, i, Split(sp.kw, sp.head, t));
    AgreeOfTails(s, Split(sp.kw, sp.head, t), sp);
  }

  /** The recogniser puts together what its three stages found. */
  lemma MatchAtOfParts(s: string, i: nat, sp: Split)
    requires i <= |s| && MatchKeywords(s, i) == Some(sp.kw) && sp.kw.fnKw + 2 <= |s|
    requires MatchHead(s, sp.kw.fnKw + 2) == Some(sp.head) && sp.head.close < |s|
    requires MatchTail(s, sp.head.close) == Some(sp.tail)
    ensures MatchAt(s, i) == Some(sp)
  {
  }

  lemma AgreeOfTails(s: string, a: Split, b: Split)
    requires a.tail.hasReturn ==> a.tail.retStart <= a.tail.retEnd <= |s|
    requires b.tail.hasReturn ==> b.tail.retStart <= b.tail.retEnd <= |s|
    requires a.head == b.head && TailsAgree(s, a.tail, b.tail)
    ensures Agree(s, a, b)
  {
  }

  /** Where the recogniser reports nothing, the pattern does not match. */
  lemma MatchAtNone(s: string, i: nat)
    requires i <= |s| && MatchAt(s, i).None?
    ensures !MatchesAt(s, i)
  {
    if MatchesAt(s, i) {
      var sp :| IsSplit(s, i, sp);
      MatchAtComplete(s, i, sp);
    }
  }

  /** All matches at one position agree. */
  lemma SplitsAgree(s: string, i: nat, a: Split, b: Split)
    requires i <= |s| && IsSplit(s, i, a) && IsSplit(s, i, b)
    ensures Agree(s, a, b)
  {
    MatchAtComplete(s, i, a);
    MatchAtComplete(s, i, b);
  }

  // ---------------------------------------------------------------------
  // The global scan

  /** A match reported by `exec`: where it starts and how it splits. */
  datatype Found = Found(start: nat, split: Split)

  /** `lastIndex` after the match: just past its opening brace. */
  function End(f: Found): nat {
    f.split.tail.brace + 1
  }

  /** The positions of a split are in order and inside `s`. */
  predicate Fits(s: string, sp: Split) {
    var h, t := sp.head, sp.tail;
    && h.name <= h.nameEnd <= h.open < h.close < t.brace < |s|
    && (t.hasReturn ==> h.close < t.arrow && t.arrow + 2 <= t.retStart <= t.retEnd <= t.brace)
  }

  /** Every split of `ms` fits `s`. */
  predicate AllFit(s: string, ms: seq<Found>) {
    forall k :: 0 <= k < |ms| ==> Fits(s, ms[k].split)
  }

  lemma SplitFits(s: string, i: nat, sp: Split)
    requires IsSplit(s, i, sp)
    ensures Fits(s, sp) && i < sp.tail.brace
  {
  }

  /** No match of the pattern starts in `[a, b)`. */
  ghost predicate NoMatchIn(s: string, a: nat, b: nat) {
    forall j :: a <= j < b ==> !MatchesAt(s, j)
  }

  /** `f` is the leftmost match that starts at or after `from`. */
  ghost predicate IsLeftmost(s: string, from: nat, f: Found) {
    from <= f.start && IsSplit(s, f.start, f.split) && NoMatchIn(s, from, f.start)
  }

  /** `ms` is what repeated `exec` calls of a global regular expression
      return when the first starts at `from`: each is the leftmost match at
      or after the end of the one before, and after the last there is none. */
  ghost predicate LeftmostScan(s: string, from: nat, ms: seq<Found>)
    decreases |ms|
  {
    from <= |s| &&
    if ms == [] then NoMatchIn(s, from, |s| + 1)
    else IsLeftmost(s, from, ms[0]) && LeftmostScan(s, End(ms[0]), ms[1..])
  }

  /** `RegExp.prototype.exec` of the global pattern with `lastIndex` at
      `from`: the first position where `MatchAt` succeeds. */
  function Exec(s: string, from: nat): (r: Option<Found>)
    requires from <= |s|
    ensures r.Some? ==> from <= r.value.start < End(r.value) <= |s| && Fits(s, r.value.split)
    decreases |s| - from
  {
    match MatchAt(s, from)
    case Some(sp) =>
      MatchAtSound(s, from, sp);
      SplitFits(s, from, sp);
      Some(Found(from, sp))
    case None => if from == |s| then None else Exec(s, from + 1)
  }

  /** `exec` returns the leftmost match, and reports none only when there is none. */
  lemma ExecLeftmost(s: string, from: nat)
    requires from <= |s|
    ensures Exec(s, from).Some? ==> IsLeftmost(s, from, Exec(s, from).value)
    ensures Exec(s, from).None? ==> NoMatchIn(s, from, |s| + 1)
  {
    if Exec(s, from).Some? {
      ExecFinds(s, from, Exec(s, from).value);
    } else {
      ExecNone(s, from);
    }
  }

  lemma ExecFinds(s: string, from: nat, f: Found)
    requires from <= |s| && Exec(s, from) == Some(f)
    ensures IsLeftmost(s, from, f)
  {
    ExecFirst(s, from, f);
    MatchAtSound(s, f.start, f.split);
  }

  lemma ExecNone(s: string, from: nat)
    requires from <= |s| && Exec(s, from).None?
    ensures NoMatchIn(s, from, |s| + 1)
  {
    ExecNoneAfter(s, from, from);
  }

  /** `exec` reports the first position where `MatchAt` succeeds. */
  lemma {:induction false} ExecFirst(s: string, from: nat, f: Found)
    requires from <= |s| && Exec(s, from) == Some(f)
    ensures from <= f.start <= |s| && MatchAt(s, f.start) == Some(f.split)
    ensures NoMatchIn(s, from, f.start)
    decreases |s| - from, 1
  {
    if MatchAt(s, from).None? {
      FirstAfterSkip(s, from, f);
    }
  }

  lemma {:induction false} FirstAfterSkip(s: string, from: nat, f: Found)
    requires from < |s| && MatchAt(s, from).None? && Exec(s, from + 1) == Some(f)
    ensures from < f.start <= |s| && MatchAt(s, f.start) == Some(f.split)
    ensures NoMatchIn(s, from, f.start)
    decreases |s| - from, 0
  {
    ExecFirst(s, from + 1, f);
    MatchAtNone(s, from);
    NoMatchBefore(s, from, f.start);
  }

  lemma NoMatchBefore(s: string, a: nat, b: nat)
    requires a < b && !MatchesAt(s, a) && NoMatchIn(s, a + 1, b)
    ensures NoMatchIn(s, a, b)
  {
  }

  /** `ExecNone`, for a scan that already passed `[a, from)` without a match. */
  lemma {:induction false} ExecNoneAfter(s: string, a: nat, from: nat)
    requires a <= from <= |s| && NoMatchIn(s, a, from) && Exec(s, from).None?
    ensures NoMatchIn(s, a, |s| + 1)
    decreases |s| - from
  {
    assert MatchAt(s, from).None?;
    SkipNoMatch(s, a, from);
    if from < |s| {
      ExecNoneAfter(s, a, from + 1);
    }
  }

  /** Where the recogniser fails, the range without a match grows by one. */
  lemma SkipNoMatch(s: string, a: nat, b: nat)
    requires a <= b <= |s| && NoMatchIn(s, a, b) && MatchAt(s, b).None?
    ensures NoMatchIn(s, a, b + 1)
  {
    MatchAtNone(s, b);
  }

  /** The matches the loop of `parseRustFile` visits, from `lastIndex == from`. */
  function Scan(s: string, from: nat): (ms: seq<Found>)
    requires from <= |s|
    ensures AllFit(s, ms)
    decreases |s| - from
  {
    match Exec(s, from)
    case None => []
    case Some(f) => [f] + Scan(s, End(f))
  }

  lemma {:induction false} ScanIsLeftmost(s: string, from: nat)
    requires from <= |s|
    ensures LeftmostScan(s, from, Scan(s, from))
    decreases |s| - from
  {
    ExecLeftmost(s, from);
    match Exec(s, from)
    case None =>
    case Some(f) =>
      ScanIsLeftmost(s, End(f));
      assert Scan(s, from)[1..] == Scan(s, End(f));
  }

  // ---------------------------------------------------------------------
  // Signatures

  /** `argPart.trim().split(":").map(s => s.trim())`, destructured into its
      first two pieces; a missing second piece is `undefined`. */
  function ArgOf(part: string): FunctionArg {
    var pieces := TrimAll(SplitOn(Trim(part), ':'));
    FunctionArg(pieces[0], if |pieces| >= 2 then Some(pieces[1]) else None)
  }

  /** The arguments of a parameter text that is already trimmed: none when
      it is empty, otherwise one per comma-separated piece. */
  function ArgsOf(argsStr: string): seq<FunctionArg> {
    if argsStr == [] then [] else ArgsOfParts(SplitOn(argsStr, ','))
  }

  /** `ArgOf` of each piece, in order. */
  function ArgsOfParts(parts: seq<string>): (args: seq<FunctionArg>)
    ensures |args| == |parts|
  {
    if parts == [] then [] else ArgsOfParts(parts[..|parts| - 1]) + [ArgOf(parts[|parts| - 1])]
  }

  /** The signature the loop body builds from one match. */
  function SignatureAt(s: string, sp: Split): FunctionSignature
    requires Fits(s, sp)
  {
    var h := sp.head;
    var ret := ReturnText(s, sp.tail);
    FunctionSignature(
      s[h.name..h.nameEnd],
      ArgsOf(Trim(s[h.open + 1..h.close])),
      if ret == [] then "void" else ret)
  }

  function SignaturesOf(s: string, ms: seq<Found>): seq<FunctionSignature>
    requires AllFit(s, ms)
    decreases |ms|
  {
    if ms == [] then [] else [SignatureAt(s, ms[0].split)] + SignaturesOf(s, ms[1..])
  }

  /** One step of the scan: the signatures from `from` are those of the
      match `exec` finds there, then those after it. */
  lemma ScanStep(s: string, from: nat, done: seq<FunctionSignature>, signature: FunctionSignature)
    requires from <= |s| && Exec(s, from).Some?
    requires signature == SignatureAt(s, Exec(s, from).value.split)
    ensures done + SignaturesOf(s, Scan(s, from))
         == (done + [signature]) + SignaturesOf(s, Scan(s, End(Exec(s, from).value)))
  {
    var f := Exec(s, from).value;
    assert Scan(s, from) == [f] + Scan(s, End(f));
  }

  // ---------------------------------------------------------------------
  // The program

  /** The argument loop of `parseRustFile`, entered with the trimmed
      parameter text. */
  method ParseArgs(argsStr: string) returns (args: seq<FunctionArg>)
    ensures args == ArgsOf(argsStr)
  {
    args := [];
    if argsStr != [] {
      var argParts := SplitOn(argsStr, ',');
      for i := 0 to |argParts|
        invariant args == ArgsOfParts(argParts[..i])
      {
        assert argParts[..i + 1][..i] == argParts[..i];
        var pieces := TrimAll(SplitOn(Trim(argParts[i]), ':'));
        var argType := if |pieces| >= 2 then Some(pieces[1]) else None;
        args := args + [FunctionArg(pieces[0], argType)];
      }
      assert argParts[..|argParts|] == argParts;
    }
  }

  /** The body of the loop of `parseRustFile`: the signature of one match. */
  method SignatureOfMatch(content: string, sp: Split) returns (signature: FunctionSignature)
    requires Fits(content, sp)
    ensures signature == SignatureAt(content, sp)
  {
    var h, t := sp.head, sp.tail;
    var name := content[h.name..h.nameEnd];
    var argsStr := Trim(content[h.open + 1..h.close]);
    var capture := if t.hasReturn then Some(content[t.retStart..t.retEnd]) else None;
    var returnType := if capture.Some? && Trim(capture.value) != [] then Trim(capture.value) else "void";
    var args := ParseArgs(argsStr);
    signature := FunctionSignature(name, args, returnType);
    SignatureOfParts(content, sp, capture, signature);
  }

  /** The three groups, read as `parseRustFile` reads them, give the
      signature of the match. */
  lemma SignatureOfParts(s: string, sp: Split, capture: Option<string>, signature: FunctionSignature)
    requires Fits(s, sp)
    requires capture == if sp.tail.hasReturn then Some(s[sp.tail.retStart..sp.tail.retEnd]) else None
    requires signature.name == s[sp.head.name..sp.head.nameEnd]
    requires signature.args == ArgsOf(Trim(s[sp.head.open + 1..sp.head.close]))
    requires signature.returnType == if capture.Some? && Trim(capture.value) != [] then Trim(capture.value) else "void"
    ensures signature == SignatureAt(s, sp)
  {
  }

  /** What `parseRustFile` returns for the text of a file. */
  function Parsed(content: string): seq<FunctionSignature> {
    SignaturesOf(content, Scan(content, 0))
  }

  /** `parseRustFile` on the text of a file: one signature per match of the
      global scan, in the order of the matches. */
  method ParseRustFile(content: string) returns (functions: seq<FunctionSignature>)
    ensures functions == Parsed(content)
  {
    functions := [];
    var lastIndex := 0;
    while true
      invariant lastIndex <= |content|
      invariant SignaturesOf(content, Scan(content, 0)) == functions + SignaturesOf(content, Scan(content, lastIndex))
      decreases |content| - lastIndex
    {
      var m := Exec(content, lastIndex);
      if m.None? {
        break;
      }
      var signature := SignatureOfMatch(content, m.value.split);
      ScanStep(content, lastIndex, functions, signature);
      functions := functions + [signature];
      lastIndex := End(m.value);
    }
  }

  // ---------------------------------------------------------------------
  // What the scan finds

  lemma {:induction false} LeftmostScanFits(s: string, from: nat, ms: seq<Found>)
    requires LeftmostScan(s, from, ms)
    ensures AllFit(s, ms)
    decreases |ms|
  {
    if ms != [] {
      SplitFits(s, ms[0].start, ms[0].split);
      LeftmostScanFits(s, End(ms[0]), ms[1..]);
      assert ms == [ms[0]] + ms[1..];
    }
  }

  /** A leftmost match is a match, so the text is not free of matches. */
  lemma LeftmostIsMatch(s: string, from: nat, f: Found)
    requires IsLeftmost(s, from, f)
    ensures !NoMatchIn(s, from, |s| + 1)
  {
    assert IsSplit(s, f.start, f.split);
    SplitFits(s, f.start, f.split);
    assert MatchesAt(s, f.start);
  }

  /** Two leftmost matches from one position start together, end together,
      and agree on every piece the signature is built from. */
  lemma LeftmostAgree(s: string, from: nat, x: Found, y: Found)
    requires IsLeftmost(s, from, x) && IsLeftmost(s, from, y)
    ensures x.start == y.start && End(x) == End(y)
    ensures Fits(s, x.split) && Fits(s, y.split) && Agree(s, x.split, y.split)
  {
    LeftmostNotAfter(s, from, x, y);
    LeftmostNotAfter(s, from, y, x);
    SplitsAgree(s, x.start, x.split, y.split);
    SplitFits(s, x.start, x.split);
    SplitFits(s, y.start, y.split);
  }

  /** A leftmost match starts no later than any other match from the same position. */
  lemma LeftmostNotAfter(s: string, from: nat, x: Found, y: Found)
    requires IsLeftmost(s, from, x) && from <= y.start && IsSplit(s, y.start, y.split)
    ensures x.start <= y.start
  {
    if y.start < x.start {
      assert MatchesAt(s, y.start);
      assert false;
    }
  }

  /** Matches that agree pairwise give the same signatures. */
  predicate AgreeAll(s: string, a: seq<Found>, b: seq<Found>)
    requires AllFit(s, a)
    requires AllFit(s, b)
  {
    |a| == |b| && forall k :: 0 <= k < |a| ==> a[k].start == b[k].start && Agree(s, a[k].split, b[k].split)
  }

  lemma AgreeAllRest(s: string, a: seq<Found>, b: seq<Found>)
    requires AllFit(s, a) && AllFit(s, b) && AgreeAll(s, a, b) && a != []
    ensures AllFit(s, a[1..]) && AllFit(s, b[1..]) && AgreeAll(s, a[1..], b[1..])
    ensures SignatureAt(s, a[0].split) == SignatureAt(s, b[0].split)
  {
    assert AllFit(s, a[1..]) && AllFit(s, b[1..]) by {
      forall k | 0 <= k < |a| - 1 ensures Fits(s, a[1..][k].split) && Fits(s, b[1..][k].split) {
        assert a[1..][k] == a[k + 1] && b[1..][k] == b[k + 1];
      }
    }
    forall k | 0 <= k < |a| - 1 ensures a[1..][k].start == b[1..][k].start && Agree(s, a[1..][k].split, b[1..][k].split) {
      assert a[1..][k] == a[k + 1] && b[1..][k] == b[k + 1];
    }
  }

  lemma {:induction false} AgreeAllSignatures(s: string, a: seq<Found>, b: seq<Found>)
    requires AllFit(s, a) && AllFit(s, b) && AgreeAll(s, a, b)
    ensures SignaturesOf(s, a) == SignaturesOf(s, b)
    decreases |a|
  {
    if a != [] {
      AgreeAllRest(s, a, b);
      AgreeAllSignatures(s, a[1..], b[1..]);
    }
  }

  /** Any two leftmost scans from one position agree match by match. */
  lemma {:induction false} LeftmostScansAgree(s: string, from: nat, a: seq<Found>, b: seq<Found>)
    requires LeftmostScan(s, from, a) && LeftmostScan(s, from, b)
    ensures AllFit(s, a) && AllFit(s, b)
    ensures AgreeAll(s, a, b)
    decreases |a|, 1
  {
    LeftmostScanFits(s, from, a);
    LeftmostScanFits(s, from, b);
    if a == [] || b == [] {
      ScansEndTogether(s, from, a, b);
    } else {
      ScansAgreeCons(s, from, a, b);
    }
  }

  /** One leftmost scan ends exactly when the other does. */
  lemma ScansEndTogether(s: string, from: nat, a: seq<Found>, b: seq<Found>)
    requires LeftmostScan(s, from, a) && LeftmostScan(s, from, b)
    requires a == [] || b == []
    ensures a == [] && b == []
  {
    if a != [] {
      LeftmostIsMatch(s, from, a[0]);
    } else if b != [] {
      LeftmostIsMatch(s, from, b[0]);
    }
  }

  lemma {:induction false} ScansAgreeCons(s: string, from: nat, a: seq<Found>, b: seq<Found>)
    requires LeftmostScan(s, from, a) && LeftmostScan(s, from, b)
    requires a != [] && b != [] && AllFit(s, a) && AllFit(s, b)
    ensures AgreeAll(s, a, b)
    decreases |a|, 0
  {
    LeftmostAgree(s, from, a[0], b[0]);
    LeftmostScansAgree(s, End(a[0]), a[1..], b[1..]);
    AgreeAllCons(s, a, b);
  }

  lemma AgreeAllCons(s: string, a: seq<Found>, b: seq<Found>)
    requires a != [] && b != [] && AllFit(s, a) && AllFit(s, b)
    requires AllFit(s, a[1..]) && AllFit(s, b[1..]) && AgreeAll(s, a[1..], b[1..])
    requires a[0].start == b[0].start && Agree(s, a[0].split, b[0].split)
    ensures AgreeAll(s, a, b)
  {
    forall k | 0 < k < |a| ensures a[k].start == b[k].start && Agree(s, a[k].split, b[k].split) {
      assert a[k] == a[1..][k - 1] && b[k] == b[1..][k - 1];
    }
  }

  /** The scan is determined by the text: any two leftmost scans from one
      position visit the same starting positions and yield the same
      signatures, however the pattern's captures are placed. */
  lemma LeftmostScanUnique(s: string, from: nat, a: seq<Found>, b: seq<Found>)
    requires LeftmostScan(s, from, a) && LeftmostScan(s, from, b)
    ensures |a| == |b| && forall k :: 0 <= k < |a| ==> a[k].start == b[k].start
    ensures AllFit(s, a) && AllFit(s, b)
    ensures SignaturesOf(s, a) == SignaturesOf(s, b)
  {
    LeftmostScansAgree(s, from, a, b);
    AgreeAllSignatures(s, a, b);
  }

  /** What `parseRustFile` returns is the signatures of every leftmost
      scan of the text from its start. */
  lemma ParsedIsLeftmostScan(s: string, ms: seq<Found>)
    requires LeftmostScan(s, 0, ms)
    ensures AllFit(s, ms)
    ensures SignaturesOf(s, Scan(s, 0)) == SignaturesOf(s, ms)
  {
    ScanIsLeftmost(s, 0);
    LeftmostScanUnique(s, 0, Scan(s, 0), ms);
  }

  /** The program finds no function exactly when the pattern matches nowhere. */
  lemma NoneFound(s: string)
    ensures SignaturesOf(s, Scan(s, 0)) == [] <==> NoMatchIn(s, 0, |s| + 1)
  {
    ExecLeftmost(s, 0);
    if Exec(s, 0).Some? {
      var f := Exec(s, 0).value;
      assert Scan(s, 0) == [f] + Scan(s, End(f));
      assert IsSplit(s, f.start, f.split);
      assert MatchesAt(s, f.start);
    }
  }

  /** Successive matches do not overlap: each starts at or after the end of
      the one before. */
  lemma {:induction false} LeftmostScanOrdered(s: string, from: nat, ms: seq<Found>)
    requires LeftmostScan(s, from, ms)
    ensures forall k :: 0 <= k < |ms| ==> from <= ms[k].start < End(ms[k]) <= |s|
    ensures forall k :: 0 < k < |ms| ==> End(ms[k - 1]) <= ms[k].start
    decreases |ms|
  {
    if ms != [] {
      SplitFits(s, ms[0].start, ms[0].split);
      LeftmostScanOrdered(s, End(ms[0]), ms[1..]);
      forall k | 0 < k < |ms| ensures End(ms[k - 1]) <= ms[k].start && from <= ms[k].start {
        assert ms[k] == ms[1..][k - 1];
        if k > 1 { assert ms[k - 1] == ms[1..][k - 2]; }
      }
    }
  }

  // ---------------------------------------------------------------------
  // What a signature holds

  /** The signature of one match: its name is the run of word characters
      after `fn`, the parameter text holds no `)`, and the return type is the
      trimmed text between `->` and `{`, or `"void"` when the clause is
      missing or blank; it is never empty and holds no `{`. */
  lemma SignatureShape(s: string, i: nat, sp: Split)
    requires IsSplit(s, i, sp)
    ensures Fits(s, sp)
    ensures var sig := SignatureAt(s, sp);
      && |sig.name| > 0 && (forall k :: 0 <= k < |sig.name| ==> IsWordChar(sig.name[k]))
      && sig.name == s[sp.head.name..sp.head.nameEnd]
      && sp.kw.fnKw + 2 < sp.head.name
      && ')' !in s[sp.head.open + 1..sp.head.close]
      && sig.args == ArgsOf(Trim(s[sp.head.open + 1..sp.head.close]))
      && sig.returnType == (var r := if sp.tail.hasReturn then Trim(s[sp.tail.arrow + 2..sp.tail.brace]) else [];
                            if r == [] then "void" else r)
      && sig.returnType != [] && '{' !in sig.returnType
  {
    NameShape(s, i, sp);
    ParamsShape(s, i, sp);
    ReturnShape(s, i, sp);
  }

  lemma NameShape(s: string, i: nat, sp: Split)
    requires IsSplit(s, i, sp)
    ensures Fits(s, sp)
    ensures var name := s[sp.head.name..sp.head.nameEnd];
      |name| > 0 && forall k :: 0 <= k < |name| ==> IsWordChar(name[k])
    ensures sp.kw.fnKw + 2 < sp.head.name
  {
    SplitFits(s, i, sp);
    var name := s[sp.head.name..sp.head.nameEnd];
    forall k | 0 <= k < |name| ensures IsWordChar(name[k]) {
      assert name[k] == s[sp.head.name + k];
    }
  }

  lemma ParamsShape(s: string, i: nat, sp: Split)
    requires IsSplit(s, i, sp)
    ensures Fits(s, sp)
    ensures ')' !in s[sp.head.open + 1..sp.head.close]
  {
    SplitFits(s, i, sp);
    var params := s[sp.head.open + 1..sp.head.close];
    forall k | 0 <= k < |params| ensures params[k] != ')' {
      assert params[k] == s[sp.head.open + 1 + k];
    }
  }

  lemma ReturnShape(s: string, i: nat, sp: Split)
    requires IsSplit(s, i, sp)
    ensures Fits(s, sp)
    ensures sp.tail.hasReturn ==> ReturnText(s, sp.tail) == Trim(s[sp.tail.arrow + 2..sp.tail.brace])
    ensures '{' !in ReturnText(s, sp.tail)
  {
    SplitFits(s, i, sp);
    var t := sp.tail;
    if t.hasReturn {
      ReturnCaptureTrim(s, sp.head.close, t);
      var capture := s[t.retStart..t.retEnd];
      forall k | 0 <= k < |capture| ensures capture[k] != '{' {
        assert capture[k] == s[t.retStart + k];
      }
      TrimKeepsAbsence('{', capture);
    }
  }

  /** Trimming a piece first does not change the argument read from it. */
  lemma ArgOfTrim(part: string)
    ensures ArgOf(Trim(part)) == ArgOf(part)
  {
    TrimIdempotent(part);
  }

  lemma {:induction false} ArgsOfPartsAt(parts: seq<string>, k: nat)
    requires k < |parts|
    ensures ArgsOfParts(parts)[k] == ArgOf(parts[k])
    decreases |parts|
  {
    if k < |parts| - 1 {
      ArgsOfPartsAt(parts[..|parts| - 1], k);
    }
  }

  /** One argument per comma-separated piece of the parameter text, however
      much white space surrounds the text, and none when it is blank. */
  lemma ArgsOfParameters(p: string)
    ensures Trim(p) == [] ==> ArgsOf(Trim(p)) == []
    ensures Trim(p) != [] ==> |ArgsOf(Trim(p))| == Count(',', p) + 1
    ensures Trim(p) != [] ==> forall k :: 0 <= k < |ArgsOf(Trim(p))| ==> ArgsOf(Trim(p))[k] == ArgOf(SplitOn(p, ',')[k])
  {
    if Trim(p) != [] {
      assert !IsSpace(',');
      TrimKeepsCount(',', p);
      TrimThenSplit(p, ',');
      var trimmed, raw := SplitOn(Trim(p), ','), SplitOn(p, ',');
      forall k | 0 <= k < |ArgsOf(Trim(p))| ensures ArgsOf(Trim(p))[k] == ArgOf(raw[k]) {
        ArgsOfPartsAt(trimmed, k);
        assert TrimAll(trimmed)[k] == TrimAll(raw)[k];
        ArgOfTrim(trimmed[k]);
        ArgOfTrim(raw[k]);
      }
    }
  }

  /** An argument's name is the trimmed text before its first colon; it has
      a type exactly when the piece holds a colon, and the type is the
      trimmed text between the first colon and the next. */
  lemma ArgOfPieces(part: string)
    ensures var pieces := SplitOn(part, ':');
      && ArgOf(part).name == Trim(pieces[0])
      && (ArgOf(part).argType.Some? <==> ':' in part)
      && (|pieces| >= 2 ==> ArgOf(part).argType == Some(Trim(pieces[1])))
  {
    assert !IsSpace(':');
    TrimThenSplit(part, ':');
    TrimKeepsCount(':', part);
    if ':' in part {
      CountPresent(':', part);
    } else {
      CountAbsent(':', part);
    }
  }

  /** A path type keeps only its first segment: `x: std::ffi::c_int`
      reads as the type `std`. */
  lemma PathTypeFirstSegment(name: string, segment: string, rest: string)
    requires ':' !in name && ':' !in segment
    ensures ArgOf(name + ":" + segment + "::" + rest) == FunctionArg(Trim(name), Some(Trim(segment)))
  {
    var part := name + ":" + segment + "::" + rest;
    assert part == name + [':'] + (segment + [':'] + ([':'] + rest));
    SplitOnAfter(name, ':', segment + [':'] + ([':'] + rest));
    SplitOnAfter(segment, ':', [':'] + rest);
    assert ':' in part by { assert part[|name|] == ':'; }
    ArgOfPieces(part);
  }

  /** A trailing comma after non-empty parameter text adds one argument
      with an empty name and no type after the arguments of the text. */
  lemma TrailingCommaArgument(p: string)
    requires p != []
    ensures ArgsOf(p + ",") == ArgsOf(p) + [FunctionArg("", None)]
  {
    SplitOnTrailing(p, ',');
    ArgsOfPartsSnoc(SplitOn(p, ','), "");
    assert ArgOf("") == FunctionArg("", None);
  }

  lemma ArgsOfPartsSnoc(parts: seq<string>, x: string)
    ensures ArgsOfParts(parts + [x]) == ArgsOfParts(parts) + [ArgOf(x)]
  {
    assert (parts + [x])[..|parts|] == parts;
  }

  /** A function name as the pattern captures it: one or more `\w`. */
  predicate WordName(name: string) {
    |name| > 0 && forall k :: 0 <= k < |name| ==> IsWordChar(name[k])
  }

  predicate WordNames(fns: seq<FunctionSignature>) {
    forall k :: 0 <= k < |fns| ==> WordName(fns[k].name)
  }

  lemma SignatureName(s: string, i: nat, sp: Split)
    requires IsSplit(s, i, sp)
    ensures Fits(s, sp) && WordName(SignatureAt(s, sp).name)
  {
    SignatureShape(s, i, sp);
  }

  lemma WordNamesCons(fn: FunctionSignature, fns: seq<FunctionSignature>)
    requires WordName(fn.name) && WordNames(fns)
    ensures WordNames([fn] + fns)
  {
  }

  lemma {:induction false} ScanNames(s: string, from: nat)
    requires from <= |s|
    ensures WordNames(SignaturesOf(s, Scan(s, from)))
    decreases |s| - from
  {
    ExecLeftmost(s, from);
    var ms := Scan(s, from);
    if ms != [] {
      var f := Exec(s, from).value;
      assert ms == [f] + Scan(s, End(f));
      assert ms[1..] == Scan(s, End(f));
      ScanNames(s, End(f));
      SignatureName(s, f.start, f.split);
      WordNamesCons(SignatureAt(s, f.split), SignaturesOf(s, Scan(s, End(f))));
    }
  }

  /** Every function the parser reports has a non-empty name of word characters. */
  lemma ParsedNames(content: string)
    ensures WordNames(Parsed(content))
  {
    ScanNames(content, 0);
  }
}
