/** The code generator of `src/generator.ts`: the text of one Bun FFI binding
    module per Rust file, the re-export index, and the loop that drives them. */
module Generator {
  import opened Wrappers
  import opened Text
  import opened Parser

  // ---------------------------------------------------------------------
  // Text as lines

  /** Each line followed by a line feed. */
  function Unlines(ls: seq<string>): string
    decreases |ls|
  {
    if ls == [] then [] else ls[0] + "\n" + Unlines(ls[1..])
  }

  lemma {:induction false} UnlinesAppend(xs: seq<string>, ys: seq<string>)
    ensures Unlines(xs + ys) == Unlines(xs) + Unlines(ys)
    decreases |xs|
  {
    if xs == [] {
      assert xs + ys == ys;
    } else {
      assert (xs + ys)[1..] == xs[1..] + ys;
      UnlinesAppend(xs[1..], ys);
    }
  }

  /** Appending a line to the text appends it and a line feed. */
  lemma UnlinesSnoc(xs: seq<string>, l: string)
    ensures Unlines(xs + [l]) == Unlines(xs) + l + "\n"
  {
    UnlinesAppend(xs, [l]);
    assert Unlines([l]) == l + "\n" + [];
  }

  predicate NoNewline(ls: seq<string>) {
    forall k :: 0 <= k < |ls| ==> '\n' !in ls[k]
  }

  /** Splitting the text at line feeds gives the lines back, and one empty
      piece after the last line feed. */
  lemma {:induction false} UnlinesSplit(ls: seq<string>)
    requires NoNewline(ls)
    ensures SplitOn(Unlines(ls), '\n') == ls + [""]
    decreases |ls|
  {
    if ls != [] {
      assert NoNewline(ls[1..]) by {
        forall k | 0 <= k < |ls| - 1 ensures '\n' !in ls[1..][k] {
          assert ls[1..][k] == ls[k + 1];
        }
      }
      UnlinesSplit(ls[1..]);
      assert Unlines(ls) == ls[0] + ['\n'] + Unlines(ls[1..]);
      SplitOnAfter(ls[0], '\n', Unlines(ls[1..]));
      assert ls + [""] == [ls[0]] + (ls[1..] + [""]);
    }
  }

  // ---------------------------------------------------------------------
  // Types

  /** The FFI types a Rust type name is translated to; every entry maps a
      name to itself. */
  const TypeMapping: map<string, string> := map[
    "u8" := "u8", "u16" := "u16", "u32" := "u32", "u64" := "u64",
    "i8" := "i8", "i16" := "i16", "i32" := "i32", "i64" := "i64",
    "f32" := "f32", "f64" := "f64", "bool" := "bool", "void" := "void",
    "char" := "char", "ptr" := "ptr", "cstring" := "cstring"
  ]

  /** `typeMapping[t] || "u64"`, where a missing type is `undefined`. */
  function MapType(t: Option<string>): (r: string)
    ensures r in TypeMapping
    ensures t.Some? && t.value in TypeMapping ==> r == t.value
    ensures t.None? || t.value !in TypeMapping ==> r == "u64"
  {
    if t.Some? && t.value in TypeMapping then TypeMapping[t.value] else "u64"
  }

  /** Translating a translated type changes nothing. */
  lemma MapTypeIdempotent(t: Option<string>)
    ensures MapType(Some(MapType(t))) == MapType(t)
  {
  }

  /** The FFI names of the arguments, `FFIType.` and the translated type. */
  function FfiArgs(args: seq<FunctionArg>): (r: seq<string>)
    ensures |r| == |args|
    ensures forall k :: 0 <= k < |args| ==> r[k] == "FFIType." + MapType(args[k].argType)
    decreases |args|
  {
    if args == [] then [] else ["FFIType." + MapType(args[0].argType)] + FfiArgs(args[1..])
  }

  // ---------------------------------------------------------------------
  // The binding module

  const ImportLine: string := "import { dlopen, " + "FFIType, suffix } " + "from \"bun:ffi\";"
  const BaseDirLine: string := "const BASE_DIR = \"lib/bin\";"

  /** The opening lines: the import, the library directory and the `dlopen`
      call naming `lib/bin/<fileName>.<platform suffix>`. */
  function HeaderLines(fileName: string): seq<string> {
    [ImportLine, "", BaseDirLine, "", DlopenLine(fileName)]
  }

  function DlopenLine(fileName: string): string {
    "const lib = dlopen(`${BASE_DIR}/" + fileName + ".${suffix}`, {"
  }

  /** The symbol description of one function. */
  function BlockLines(fn: FunctionSignature): seq<string> {
    [ "  " + fn.name + ": {",
      "    args: [" + Join(FfiArgs(fn.args), ", ") + "],",
      "    returns: FFIType." + MapType(Some(fn.returnType)) + ",",
      "  }," ]
  }

  /** The symbol descriptions of all the functions, in order. */
  function AllBlockLines(fns: seq<FunctionSignature>): (r: seq<string>)
    ensures |r| == 4 * |fns|
  {
    FlatLength(fns, BlockLines);
    Flat(fns, BlockLines)
  }

  /** The lines of each element in turn. */
  function Flat<T>(xs: seq<T>, f: T -> seq<string>): seq<string>
    decreases |xs|
  {
    if xs == [] then [] else Flat(xs[..|xs| - 1], f) + f(xs[|xs| - 1])
  }

  lemma {:induction false} FlatLength<T>(xs: seq<T>, f: T -> seq<string>)
    requires forall x :: |f(x)| == 4
    ensures |Flat(xs, f)| == 4 * |xs|
    decreases |xs|
  {
    if xs != [] {
      FlatLength(xs[..|xs| - 1], f);
    }
  }

  function ExportLine(name: string): string {
    "export const " + name + " = lib.symbols." + name + ";"
  }

  function ExportLines(fns: seq<FunctionSignature>): (r: seq<string>)
    ensures |r| == |fns|
    decreases |fns|
  {
    if fns == [] then [] else ExportLines(fns[..|fns| - 1]) + [ExportLine(fns[|fns| - 1].name)]
  }

  /** The lines of the module `generateTypeScriptBinding` writes. */
  function BindingLines(fileName: string, fns: seq<FunctionSignature>): seq<string> {
    HeaderLines(fileName) + BodyLines(fns)
  }

  /** The symbol descriptions, the end of the `dlopen` call and the exports. */
  function BodyLines(fns: seq<FunctionSignature>): seq<string> {
    AllBlockLines(fns) + ["});", ""] + ExportLines(fns)
  }

  function BindingText(fileName: string, fns: seq<FunctionSignature>): string {
    Unlines(BindingLines(fileName, fns))
  }

  /** Appending four lines, each with its line feed. */
  lemma AppendFour(prefix: seq<string>, b: seq<string>)
    requires |b| == 4
    ensures Unlines(prefix) + b[0] + "\n" + b[1] + "\n" + b[2] + "\n" + b[3] + "\n" == Unlines(prefix + b)
  {
    UnlinesSnoc(prefix, b[0]);
    UnlinesSnoc(prefix + [b[0]], b[1]);
    UnlinesSnoc(prefix + [b[0]] + [b[1]], b[2]);
    UnlinesSnoc(prefix + [b[0]] + [b[1]] + [b[2]], b[3]);
    assert prefix + [b[0]] + [b[1]] + [b[2]] + [b[3]] == prefix + b;
  }

  /** A line followed by an empty line. */
  lemma BlankAfter(x: string)
    ensures Unlines([x, ""]) == x + "\n\n"
  {
    assert Unlines([""]) == "\n";
    assert [x, ""][1..] == [""];
  }

  /** The opening lines as `generateTypeScriptBinding` appends them. */
  lemma HeaderText(fileName: string)
    ensures Unlines(HeaderLines(fileName)) == ImportLine + "\n\n" + BaseDirLine + "\n\n" + DlopenLine(fileName) + "\n"
  {
    var a, b, d := [ImportLine, ""], [BaseDirLine, ""], DlopenLine(fileName);
    assert HeaderLines(fileName) == a + b + [d];
    UnlinesAppend(a + b, [d]);
    UnlinesAppend(a, b);
    BlankAfter(ImportLine);
    BlankAfter(BaseDirLine);
    assert Unlines([d]) == d + "\n";
  }

  /** `generateTypeScriptBinding`, with each template it appends written as
      its line and its line feed. */
  method GenerateTypeScriptBinding(fileName: string, functions: seq<FunctionSignature>) returns (content: string)
    ensures content == BindingText(fileName, functions)
  {
    content := ImportLine + "\n\n";
    content := content + BaseDirLine + "\n\n";
    content := content + DlopenLine(fileName) + "\n";
    HeaderText(fileName);
    assert HeaderLines(fileName) + AllBlockLines(functions[..0]) == HeaderLines(fileName);
    for i := 0 to |functions|
      invariant content == Unlines(HeaderLines(fileName) + AllBlockLines(functions[..i]))
    {
      var fn := functions[i];
      var open := "  " + fn.name + ": {";
      var args := "    args: [" + Join(FfiArgs(fn.args), ", ") + "],";
      var ret := "    returns: FFIType." + MapType(Some(fn.returnType)) + ",";
      var close := "  },";
      AppendFour(HeaderLines(fileName) + AllBlockLines(functions[..i]), [open, args, ret, close]);
      content := content + open + "\n";
      content := content + args + "\n";
      content := content + ret + "\n";
      content := content + close + "\n";
      BlocksStep(HeaderLines(fileName), functions, i);
    }
    assert functions[..|functions|] == functions;
    ghost var body := HeaderLines(fileName) + AllBlockLines(functions);
    UnlinesSnoc(body, "});");
    UnlinesSnoc(body + ["});"], "");
    content := content + "});" + "\n" + "" + "\n";
    assert body + ["});"] + [""] == body + ["});", ""] == body + ["});", ""] + ExportLines(functions[..0]);
    for i := 0 to |functions|
      invariant content == Unlines(body + ["});", ""] + ExportLines(functions[..i]))
    {
      var fn := functions[i];
      var line := "export const " + fn.name + " = lib.symbols." + fn.name + ";";
      UnlinesSnoc(body + ["});", ""] + ExportLines(functions[..i]), line);
      content := content + line + "\n";
      ExportsStep(body + ["});", ""], functions, i);
    }
    assert functions[..|functions|] == functions;
    Regroup(HeaderLines(fileName), AllBlockLines(functions), ["});", ""], ExportLines(functions));
  }

  lemma Regroup<T>(h: seq<T>, a: seq<T>, c: seq<T>, e: seq<T>)
    ensures h + a + c + e == h + (a + c + e)
  {
  }

  lemma BlocksStep(prefix: seq<string>, fns: seq<FunctionSignature>, i: nat)
    requires i < |fns|
    ensures prefix + AllBlockLines(fns[..i]) + BlockLines(fns[i]) == prefix + AllBlockLines(fns[..i + 1])
  {
    assert fns[..i + 1][..i] == fns[..i];
  }

  lemma ExportsStep(prefix: seq<string>, fns: seq<FunctionSignature>, i: nat)
    requires i < |fns|
    ensures prefix + ExportLines(fns[..i]) + [ExportLine(fns[i].name)] == prefix + ExportLines(fns[..i + 1])
  {
    assert fns[..i + 1][..i] == fns[..i];
  }

  // ---------------------------------------------------------------------
  // Reading the binding module back

  /** With four lines per element, line `4k + j` is line `j` of the `k`-th element. */
  lemma {:induction false} FlatAt<T>(xs: seq<T>, f: T -> seq<string>, k: nat, j: nat)
    requires forall x :: |f(x)| == 4
    requires k < |xs| && j < 4
    ensures |Flat(xs, f)| == 4 * |xs| && Flat(xs, f)[4 * k + j] == f(xs[k])[j]
    decreases |xs|
  {
    var n := |xs| - 1;
    FlatLength(xs, f);
    FlatLength(xs[..n], f);
    if k < n {
      FlatAt(xs[..n], f, k, j);
      assert xs[..n][k] == xs[k];
    }
  }

  /** Line `4k + j` of the symbol descriptions is line `j` of the `k`-th function's. */
  lemma AllBlockLinesAt(fns: seq<FunctionSignature>, k: nat, j: nat)
    requires k < |fns| && j < 4
    ensures AllBlockLines(fns)[4 * k + j] == BlockLines(fns[k])[j]
  {
    FlatAt(fns, BlockLines, k, j);
  }

  lemma {:induction false} ExportLinesAt(fns: seq<FunctionSignature>, k: nat)
    requires k < |fns|
    ensures ExportLines(fns)[k] == ExportLine(fns[k].name)
    decreases |fns|
  {
    var n := |fns| - 1;
    if k < n {
      ExportLinesAt(fns[..n], k);
    }
  }

  /** A name that can stand in a line and between spaces. */
  predicate PlainName(name: string) {
    '\n' !in name && ' ' !in name
  }

  predicate PlainNames(fns: seq<FunctionSignature>) {
    forall k :: 0 <= k < |fns| ==> PlainName(fns[k].name)
  }

  /** The name a line `export const N = lib.symbols.N;` exports: its third
      space-separated word. */
  function ExportedName(line: string): string {
    var words := SplitOn(line, ' ');
    if |words| >= 3 then words[2] else []
  }

  /** An export line names the function it exports. */
  lemma ExportLineRoundTrip(name: string)
    requires ' ' !in name
    ensures ExportedName(ExportLine(name)) == name
  {
    var rest := "= lib.symbols." + name + ";";
    var tail := " = lib.symbols." + name + ";";
    assert "export const " == "export" + [' '] + "const" + [' '];
    assert " = lib.symbols." == [' '] + "= lib.symbols.";
    assert tail == [' '] + rest;
    assert ExportLine(name) == "export const " + (name + tail);
    ThirdWord("export", "const", name, rest);
  }

  /** The third piece after splitting at spaces. */
  lemma ThirdWord(a: string, b: string, w: string, rest: string)
    requires ' ' !in a && ' ' !in b && ' ' !in w
    ensures ExportedName(a + [' '] + b + [' '] + (w + ([' '] + rest))) == w
  {
    assert a + [' '] + b + [' '] + (w + ([' '] + rest)) == a + [' '] + (b + [' '] + (w + [' '] + rest));
    SplitOnAfter(a, ' ', b + [' '] + (w + [' '] + rest));
    SplitOnAfter(b, ' ', w + [' '] + rest);
    SplitOnAfter(w, ' ', rest);
  }

  /** Joining two lists of lines without line feeds keeps every line free of them. */
  lemma NoNewlineAppend(a: seq<string>, b: seq<string>)
    requires NoNewline(a) && NoNewline(b)
    ensures NoNewline(a + b)
  {
    forall i | 0 <= i < |a + b| ensures '\n' !in (a + b)[i] {
      if i >= |a| {
        assert (a + b)[i] == b[i - |a|];
      }
    }
  }

  lemma {:induction false} AllBlocksPlain(fns: seq<FunctionSignature>)
    requires PlainNames(fns)
    ensures NoNewline(AllBlockLines(fns))
    decreases |fns|
  {
    if fns != [] {
      var n := |fns| - 1;
      AllBlocksPlain(fns[..n]);
      assert PlainName(fns[n].name);
      BlockPlain(fns[n]);
      NoNewlineAppend(AllBlockLines(fns[..n]), BlockLines(fns[n]));
    }
  }

  lemma {:induction false} ExportsPlain(fns: seq<FunctionSignature>)
    requires PlainNames(fns)
    ensures NoNewline(ExportLines(fns))
    decreases |fns|
  {
    if fns != [] {
      var n := |fns| - 1;
      ExportsPlain(fns[..n]);
      assert PlainName(fns[n].name);
      NoNewlineAppend(ExportLines(fns[..n]), [ExportLine(fns[n].name)]);
    }
  }

  /** No line of the module breaks: every piece is free of line feeds. */
  lemma BindingLinesPlain(fileName: string, fns: seq<FunctionSignature>)
    requires '\n' !in fileName && PlainNames(fns)
    ensures NoNewline(BindingLines(fileName, fns))
  {
    HeaderPlain(fileName);
    AllBlocksPlain(fns);
    ExportsPlain(fns);
    NoNewlineAppend(AllBlockLines(fns), ["});", ""]);
    NoNewlineAppend(AllBlockLines(fns) + ["});", ""], ExportLines(fns));
    NoNewlineAppend(HeaderLines(fileName), BodyLines(fns));
  }

  lemma HeaderPlain(fileName: string)
    requires '\n' !in fileName
    ensures NoNewline(HeaderLines(fileName))
  {
    assert '\n' !in ImportLine && '\n' !in BaseDirLine;
    DlopenPlain(fileName);
    var h := HeaderLines(fileName);
    assert h[0] == ImportLine && h[2] == BaseDirLine && h[4] == DlopenLine(fileName);
  }

  lemma DlopenPlain(fileName: string)
    requires '\n' !in fileName
    ensures '\n' !in DlopenLine(fileName)
  {
    NoNewlineAround("const lib = dlopen(`${BASE_DIR}/", fileName, ".${suffix}`, {");
  }

  lemma NoNewlineAround(p: string, x: string, q: string)
    requires '\n' !in p && '\n' !in x && '\n' !in q
    ensures '\n' !in p + x + q
  {
  }

  lemma BlockPlain(fn: FunctionSignature)
    requires PlainName(fn.name)
    ensures NoNewline(BlockLines(fn))
  {
    var b := BlockLines(fn);
    var args, ret := Join(FfiArgs(fn.args), ", "), MapType(Some(fn.returnType));
    JoinArgsPlain(fn.args);
    TypePlain(ret);
    NoNewlineAround("  ", fn.name, ": {");
    NoNewlineAround("    args: [", args, "],");
    NoNewlineAround("    returns: FFIType.", ret, ",");
    assert b[0] == "  " + fn.name + ": {" && b[1] == "    args: [" + args + "],";
    assert b[2] == "    returns: FFIType." + ret + "," && b[3] == "  },";
  }

  /** Every FFI type name is a word. */
  lemma TypeWord(t: string)
    requires t in TypeMapping
    ensures WordName(t)
  {
    assert t in TypeMapping.Keys;
    assert t == "u8" || t == "u16" || t == "u32" || t == "u64" || t == "i8" || t == "i16"
      || t == "i32" || t == "i64" || t == "f32" || t == "f64" || t == "bool" || t == "void"
      || t == "char" || t == "ptr" || t == "cstring";
  }

  /** A word holds no line feed, comma or space, and does not end in white space. */
  lemma WordPlain(t: string)
    requires WordName(t)
    ensures '\n' !in t && ',' !in t && ' ' !in t && !IsSpace(t[|t| - 1])
  {
    assert IsWordChar(t[|t| - 1]);
    if IsSpace(t[|t| - 1]) {
      SpaceCode(t[|t| - 1]);
    }
  }

  lemma TypePlain(t: string)
    requires t in TypeMapping
    ensures '\n' !in t && ',' !in t && |t| > 0 && !IsSpace(t[|t| - 1])
  {
    TypeWord(t);
    WordPlain(t);
  }

  lemma {:induction false} JoinPlain(xs: seq<string>, sep: string, c: char)
    requires c !in sep && forall k :: 0 <= k < |xs| ==> c !in xs[k]
    ensures c !in Join(xs, sep)
    decreases |xs|
  {
    if |xs| > 1 {
      JoinPlain(xs[1..], sep, c);
    }
  }

  lemma JoinArgsPlain(args: seq<FunctionArg>)
    ensures '\n' !in Join(FfiArgs(args), ", ")
  {
    var xs := FfiArgs(args);
    forall k | 0 <= k < |xs| ensures '\n' !in xs[k] {
      TypePlain(MapType(args[k].argType));
    }
    JoinPlain(xs, ", ", '\n');
  }

  /** Where the first and the third part sit in `ls == a + c + e`, with the
      offset of the third given as `n`. */
  lemma PartsAt<T>(ls: seq<T>, a: seq<T>, c: seq<T>, e: seq<T>, n: nat)
    requires ls == a + c + e && |a| + |c| == n
    ensures |ls| == n + |e|
    ensures forall i :: 0 <= i < |a| ==> ls[i] == a[i]
    ensures forall k :: 0 <= k < |e| ==> ls[n + k] == e[k]
  {
  }

  /** Where the symbol descriptions and the exports sit among the lines of the module. */
  lemma BindingLinesAt(fileName: string, fns: seq<FunctionSignature>)
    ensures |BindingLines(fileName, fns)| == 7 + 5 * |fns|
    ensures forall i :: 0 <= i < 4 * |fns| ==> BindingLines(fileName, fns)[5 + i] == AllBlockLines(fns)[i]
    ensures forall k :: 0 <= k < |fns| ==> BindingLines(fileName, fns)[7 + 4 * |fns| + k] == ExportLines(fns)[k]
  {
    BindingBlocksAt(fileName, fns);
    BindingExportsAt(fileName, fns);
  }

  /** The body follows the five header lines. */
  lemma HeaderThenBody(fileName: string, fns: seq<FunctionSignature>)
    ensures |BindingLines(fileName, fns)| == 5 + |BodyLines(fns)|
    ensures forall j :: 0 <= j < |BodyLines(fns)| ==> BindingLines(fileName, fns)[5 + j] == BodyLines(fns)[j]
  {
    assert |HeaderLines(fileName)| == 5;
  }

  lemma BodyLinesAt(fns: seq<FunctionSignature>)
    ensures |BodyLines(fns)| == 2 + 5 * |fns|
    ensures forall i :: 0 <= i < 4 * |fns| ==> BodyLines(fns)[i] == AllBlockLines(fns)[i]
    ensures forall k :: 0 <= k < |fns| ==> BodyLines(fns)[2 + 4 * |fns| + k] == ExportLines(fns)[k]
  {
    PartsAt(BodyLines(fns), AllBlockLines(fns), ["});", ""], ExportLines(fns), 2 + 4 * |fns|);
  }

  lemma BindingBlocksAt(fileName: string, fns: seq<FunctionSignature>)
    ensures |BindingLines(fileName, fns)| == 7 + 5 * |fns|
    ensures forall i :: 0 <= i < 4 * |fns| ==> BindingLines(fileName, fns)[5 + i] == AllBlockLines(fns)[i]
  {
    HeaderThenBody(fileName, fns);
    BodyLinesAt(fns);
  }

  lemma BindingExportsAt(fileName: string, fns: seq<FunctionSignature>)
    ensures forall k :: 0 <= k < |fns| ==> BindingLines(fileName, fns)[7 + 4 * |fns| + k] == ExportLines(fns)[k]
  {
    HeaderThenBody(fileName, fns);
    BodyLinesAt(fns);
    forall k | 0 <= k < |fns| ensures BindingLines(fileName, fns)[7 + 4 * |fns| + k] == ExportLines(fns)[k] {
      var j := 2 + 4 * |fns| + k;
      assert BindingLines(fileName, fns)[5 + j] == BodyLines(fns)[j];
    }
  }

  /** The module read back line by line: its lines, then the empty piece
      after the final line feed; the exports at the end name the functions
      in order. */
  lemma BindingReadBack(fileName: string, fns: seq<FunctionSignature>)
    requires '\n' !in fileName && PlainNames(fns)
    ensures var ls := SplitOn(BindingText(fileName, fns), '\n');
      && ls == BindingLines(fileName, fns) + [""]
      && |ls| == 8 + 5 * |fns|
      && forall k :: 0 <= k < |fns| ==> ExportedName(ls[7 + 4 * |fns| + k]) == fns[k].name
  {
    BindingLinesPlain(fileName, fns);
    UnlinesSplit(BindingLines(fileName, fns));
    var ls := SplitOn(BindingText(fileName, fns), '\n');
    BindingLinesAt(fileName, fns);
    forall k | 0 <= k < |fns| ensures ExportedName(ls[7 + 4 * |fns| + k]) == fns[k].name {
      ExportLinesAt(fns, k);
      assert PlainName(fns[k].name);
      ExportLineRoundTrip(fns[k].name);
    }
  }

  /** The module opens with the import of `bun:ffi`, the base directory
      and the `dlopen` call for `<fileName>.${suffix}`, whatever the functions. */
  lemma BindingStartsWithHeader(fileName: string, fns: seq<FunctionSignature>)
    ensures var h := ImportLine + "\n\n" + BaseDirLine + "\n\n" + DlopenLine(fileName) + "\n";
      |h| <= |BindingText(fileName, fns)| && BindingText(fileName, fns)[..|h|] == h
  {
    var rest := BodyLines(fns);
    UnlinesAppend(HeaderLines(fileName), rest);
    HeaderText(fileName);
    PrefixOfAppend(Unlines(HeaderLines(fileName)), Unlines(rest));
  }

  lemma PrefixOfAppend(x: string, y: string)
    ensures |x| <= |x + y| && (x + y)[..|x|] == x
  {
  }

  /** The module describes the `k`-th function in lines `5 + 4k` to
      `8 + 4k`: its name, the FFI types of its arguments and its translated
      return type (`BindingReadBack` shows these are the lines read back). */
  lemma BindingBlock(fileName: string, fns: seq<FunctionSignature>, k: nat)
    requires k < |fns|
    ensures var ls := BindingLines(fileName, fns);
      9 + 4 * k <= |ls| && ls[5 + 4 * k..9 + 4 * k] == BlockLines(fns[k])
  {
    BindingLinesAt(fileName, fns);
    forall j | 0 <= j < 4 ensures BindingLines(fileName, fns)[5 + 4 * k + j] == BlockLines(fns[k])[j] {
      AllBlockLinesAt(fns, k, j);
    }
  }

  /** The `args` list of a symbol read back: split at the commas and
      trimmed, it names each argument's FFI type, in order. */
  lemma ArgListRoundTrip(args: seq<FunctionArg>)
    requires |args| > 0
    ensures TrimAll(SplitOn(Join(FfiArgs(args), ", "), ',')) == FfiArgs(args)
  {
    var xs := FfiArgs(args);
    forall k | 0 <= k < |xs| ensures ',' !in xs[k] && Solid(xs[k]) {
      var t := MapType(args[k].argType);
      TypePlain(t);
      FfiTypeSolid("FFIType.", t);
    }
    SplitCommaList(xs);
  }

  lemma FfiTypeSolid(p: string, t: string)
    requires p == "FFIType."
    requires ',' !in t && |t| > 0 && !IsSpace(t[|t| - 1])
    ensures ',' !in p + t && Solid(p + t)
  {
    assert (p + t)[|p + t| - 1] == t[|t| - 1];
    if IsSpace(p[0]) {
      SpaceCode(p[0]);
    }
  }

  // ---------------------------------------------------------------------
  // Paths, relative to the library directory

  /** The module path `path.join(relativeDir === "." ? "" : relativeDir, fileName)`
      of a Rust file found in directory `dir` below `rs/`. */
  function ModulePath(dir: string, fileName: string): string {
    if dir == "." then fileName else dir + "/" + fileName
  }

  /** The import path `./mod/<module path>` the exports are recorded under. */
  function ImportPath(dir: string, fileName: string): string {
    "./mod/" + ModulePath(dir, fileName)
  }

  /** The directory `mod/<relativeDir>` the binding is written into. */
  function TargetDir(dir: string): string {
    if dir == "." then "mod" else "mod/" + dir
  }

  /** The binding module `<target dir>/<fileName>.ts`. */
  function BindingPath(dir: string, fileName: string): string {
    TargetDir(dir) + "/" + fileName + ".ts"
  }

  /** The file an import path of the index names: `./P` is the module `P.ts`. */
  function Resolve(importPath: string): string {
    if |importPath| >= 2 && importPath[..2] == "./" then importPath[2..] + ".ts" else importPath + ".ts"
  }

  /** The import path recorded for a module names the file its binding is written to. */
  lemma ImportPathResolves(dir: string, fileName: string)
    ensures Resolve(ImportPath(dir, fileName)) == BindingPath(dir, fileName)
  {
    var m := "mod/" + ModulePath(dir, fileName);
    assert ImportPath(dir, fileName) == "./" + m;
    ResolveDotted(m);
    if dir == "." {
      assert m == "mod" + "/" + fileName;
    } else {
      assert m == ("mod/" + dir) + "/" + fileName;
    }
  }

  lemma ResolveDotted(m: string)
    ensures Resolve("./" + m) == m + ".ts"
  {
    var p := "./" + m;
    assert p[..2] == "./";
    assert p[2..] == m;
  }

  /** `path.basename`: trailing separators dropped, then the text after the last `/`. */
  function Basename(p: string): string {
    AfterLastSlash(DropTrailingSlashes(p))
  }

  function DropTrailingSlashes(p: string): string
    decreases |p|
  {
    if p != [] && p[|p| - 1] == '/' then DropTrailingSlashes(p[..|p| - 1]) else p
  }

  function AfterLastSlash(p: string): string
    decreases |p|
  {
    if p == [] || p[|p| - 1] == '/' then [] else AfterLastSlash(p[..|p| - 1]) + [p[|p| - 1]]
  }

  /** A base name holds no character its path does not hold. */
  lemma BasenameKeepsAbsence(p: string, c: char)
    requires c !in p
    ensures c !in Basename(p)
  {
    DropTrailingSlashesKeeps(p, c);
    AfterLastSlashKeeps(DropTrailingSlashes(p), c);
  }

  lemma {:induction false} DropTrailingSlashesKeeps(p: string, c: char)
    requires c !in p
    ensures c !in DropTrailingSlashes(p)
    decreases |p|
  {
    if p != [] && p[|p| - 1] == '/' {
      assert forall k :: 0 <= k < |p| - 1 ==> p[..|p| - 1][k] == p[k];
      DropTrailingSlashesKeeps(p[..|p| - 1], c);
    }
  }

  lemma {:induction false} AfterLastSlashKeeps(p: string, c: char)
    requires c !in p
    ensures c !in AfterLastSlash(p)
    decreases |p|
  {
    if !(p == [] || p[|p| - 1] == '/') {
      assert forall k :: 0 <= k < |p| - 1 ==> p[..|p| - 1][k] == p[k];
      AfterLastSlashKeeps(p[..|p| - 1], c);
    }
  }

  lemma {:induction false} AfterLastSlashOf(x: string, f: string)
    requires '/' !in f
    ensures AfterLastSlash(x + "/" + f) == f
    decreases |f|
  {
    if f == [] {
      assert x + "/" + f == x + "/";
    } else {
      var n := |f| - 1;
      assert (x + "/" + f)[..|x + "/" + f| - 1] == x + "/" + f[..n];
      AfterLastSlashOf(x, f[..n]);
      assert f[..n] + [f[n]] == f;
    }
  }

  /** The base name of an import path is the file name it ends with. */
  lemma BasenameOfImportPath(dir: string, fileName: string)
    requires |fileName| > 0 && '/' !in fileName
    ensures Basename(ImportPath(dir, fileName)) == fileName
  {
    var p := ImportPath(dir, fileName);
    assert p[|p| - 1] == fileName[|fileName| - 1];
    assert DropTrailingSlashes(p) == p;
    if dir == "." {
      assert p == "./mod" + "/" + fileName;
      AfterLastSlashOf("./mod", fileName);
    } else {
      assert p == "./mod/" + dir + "/" + fileName;
      AfterLastSlashOf("./mod/" + dir, fileName);
    }
  }

  // ---------------------------------------------------------------------
  // The exports record

  /** `Record<string, string[]>`: the names exported per import path, with
      the keys in the order `Object.entries` lists them (they all begin
      with `./`, so none is an array index and insertion order applies). */
  datatype Exports = Exports(keys: seq<string>, names: map<string, seq<string>>)

  predicate ValidExports(e: Exports) {
    && (forall i, j :: 0 <= i < j < |e.keys| ==> e.keys[i] != e.keys[j])
    && (forall k :: k in e.keys ==> k in e.names)
    && (forall k :: k in e.names ==> k in e.keys)
  }

  const NoExports: Exports := Exports([], map[])

  /** `exports[key] = value`: a new key goes last, an existing one keeps its place. */
  function Put(e: Exports, key: string, value: seq<string>): Exports {
    Exports(if key in e.names then e.keys else e.keys + [key], e.names[key := value])
  }

  /** Assigning a key keeps the record well formed, records the value, and
      leaves every other key, and the order of the keys, as it was. */
  lemma PutValid(e: Exports, key: string, value: seq<string>)
    requires ValidExports(e)
    ensures var r := Put(e, key, value);
      && ValidExports(r)
      && r.names[key] == value
      && (forall k :: k in e.names && k != key ==> k in r.names && r.names[k] == e.names[k])
      && |r.keys| == |e.keys| + (if key in e.keys then 0 else 1)
      && r.keys[..|e.keys|] == e.keys
  {
  }

  /** `functions.map((fn) => fn.name)`. */
  function Names(fns: seq<FunctionSignature>): (r: seq<string>)
    ensures |r| == |fns| && forall k :: 0 <= k < |fns| ==> r[k] == fns[k].name
  {
    seq(|fns|, k requires 0 <= k < |fns| => fns[k].name)
  }

  // ---------------------------------------------------------------------
  // The index module

  /** The line `generateIndexFile` writes for an import path: it re-exports
      `./mod/` and the base name of the path. */
  function IndexLineAsWritten(importPath: string): string {
    "export * from \"./mod/" + Basename(importPath) + "\";"
  }

  function IndexLinesAsWritten(keys: seq<string>): (r: seq<string>)
    ensures |r| == |keys| && forall k :: 0 <= k < |keys| ==> r[k] == IndexLineAsWritten(keys[k])
  {
    seq(|keys|, k requires 0 <= k < |keys| => IndexLineAsWritten(keys[k]))
  }

  /** The text `generateIndexFile` writes: the lines as written, then an empty line. */
  function IndexTextAsWritten(keys: seq<string>): string {
    Unlines(IndexLinesAsWritten(keys) + [""])
  }

  /** The re-export line that names the import path itself. */
  function IndexLine(importPath: string): string {
    "export * from \"" + importPath + "\";"
  }

  function IndexLines(keys: seq<string>): (r: seq<string>)
    ensures |r| == |keys| && forall k :: 0 <= k < |keys| ==> r[k] == IndexLine(keys[k])
  {
    seq(|keys|, k requires 0 <= k < |keys| => IndexLine(keys[k]))
  }

  /** One re-export line per key, in order, then an empty line. */
  function IndexText(keys: seq<string>): string {
    Unlines(IndexLines(keys) + [""])
  }

  /** The path a line `export * from "P";` imports: the text between its first two quotes. */
  function ImportedPath(line: string): string {
    var pieces := SplitOn(line, '"');
    if |pieces| >= 2 then pieces[1] else []
  }

  /** An index line imports exactly the path it was written for. */
  lemma IndexLineRoundTrip(importPath: string)
    requires '"' !in importPath
    ensures ImportedPath(IndexLine(importPath)) == importPath
  {
    assert '"' !in "export * from ";
    assert IndexLine(importPath) == "export * from " + ['"'] + (importPath + ['"'] + ";");
    SplitOnAfter("export * from ", '"', importPath + ['"'] + ";");
    SplitOnAfter(importPath, '"', ";");
  }

  /** For a module directly in `rs/`, the line as written is the line for
      its import path; for any other directory it names a different path,
      `./mod/<fileName>`, whose file no binding is written to. */
  lemma IndexLineAsWrittenTarget(dir: string, fileName: string)
    requires |fileName| > 0 && '/' !in fileName
    ensures IndexLineAsWritten(ImportPath(dir, fileName)) == IndexLine(ImportPath(".", fileName))
    ensures ImportPath(".", fileName) == ImportPath(dir, fileName) <==> dir == "."
  {
    BasenameOfImportPath(dir, fileName);
    if dir != "." {
      assert |ImportPath(dir, fileName)| == |ImportPath(".", fileName)| + |dir| + 1;
    }
  }

  /** A file `rs/net/http.rs`: its binding goes to `mod/net/http.ts`, but the
      index as written re-exports `./mod/http`, which is `mod/http.ts`. */
  lemma NestedModuleMissed()
    ensures IndexLineAsWritten(ImportPath("net", "http")) == IndexLine("./mod/http")
    ensures Resolve("./mod/http") == "mod/http.ts"
    ensures BindingPath("net", "http") == "mod/net/http.ts"
  {
    IndexLineAsWrittenTarget("net", "http");
    assert ImportPath(".", "http") == "./mod/http";
    assert "./mod/http"[..2] == "./";
  }

  /** `generateIndexFile` with the corrected re-export line, which names the
      import path of each module rather than its base name; the written
      file is `index.ts` of the library. */
  method GenerateIndexFile(exports: Exports) returns (content: string)
    ensures content == IndexText(exports.keys)
  {
    content := "";
    for i := 0 to |exports.keys|
      invariant content == Unlines(IndexLines(exports.keys[..i]))
    {
      var line := IndexLine(exports.keys[i]);
      UnlinesSnoc(IndexLines(exports.keys[..i]), line);
      assert IndexLines(exports.keys[..i + 1]) == IndexLines(exports.keys[..i]) + [line];
      content := content + line + "\n";
    }
    assert exports.keys[..|exports.keys|] == exports.keys;
    UnlinesSnoc(IndexLines(exports.keys), "");
    content := content + "\n";
  }

  /** The index read back line by line: one re-export per key, each
      importing exactly that key, then an empty line and the empty piece
      after the last line feed. */
  lemma IndexReadBack(keys: seq<string>)
    requires forall k :: 0 <= k < |keys| ==> '\n' !in keys[k] && '"' !in keys[k]
    ensures var ls := SplitOn(IndexText(keys), '\n');
      && |ls| == |keys| + 2 && ls[|keys|] == "" && ls[|keys| + 1] == ""
      && forall k :: 0 <= k < |keys| ==> ImportedPath(ls[k]) == keys[k]
  {
    var ls := IndexLines(keys) + [""];
    forall k | 0 <= k < |ls| ensures '\n' !in ls[k] {
      if k < |keys| {
        assert ls[k] == "export * from \"" + keys[k] + "\";";
      }
    }
    UnlinesSplit(ls);
    forall k | 0 <= k < |keys| ensures ImportedPath(SplitOn(IndexText(keys), '\n')[k]) == keys[k] {
      assert SplitOn(IndexText(keys), '\n')[k] == ls[k] == IndexLine(keys[k]);
      IndexLineRoundTrip(keys[k]);
    }
  }

  // ---------------------------------------------------------------------
  // The driver

  /** A file `glob` found below `rs/`: the path it was found under, the
      directory `path.dirname` gives relative to `rs/` (`.` for `rs/`
      itself), its name without `.rs`, and its text. */
  datatype RustFile = RustFile(path: string, relativeDir: string, fileName: string, content: string)

  /** A file written, by its path relative to the library directory. */
  datatype Written = Written(path: string, content: string)

  function Warning(path: string): string {
    "Warning: No exported functions found in " + path
  }

  /** A file that contributes a module: its parse is not empty. */
  predicate Exporting(f: RustFile, parse: string -> seq<FunctionSignature>) {
    |parse(f.content)| > 0
  }

  function ImportPathOf(f: RustFile): string {
    ImportPath(f.relativeDir, f.fileName)
  }

  // What the loop over the files (in the order `glob` returned them) has
  // done after each prefix of them, one record at a time. `parse` gives the
  // functions of a file's text; `generateBindings` uses `Parsed`.

  /** The directories ensured: `mod` first, then each file's target
      directory, ensured before the file is parsed. */
  function Dirs(files: seq<RustFile>): seq<string>
    decreases |files|
  {
    if files == [] then ["mod"]
    else Dirs(files[..|files| - 1]) + [TargetDir(files[|files| - 1].relativeDir)]
  }

  /** The binding modules written, one per file that has functions. */
  function Modules(files: seq<RustFile>, parse: string -> seq<FunctionSignature>): seq<Written>
    decreases |files|
  {
    if files == [] then []
    else
      var f := files[|files| - 1];
      Modules(files[..|files| - 1], parse)
        + if Exporting(f, parse) then [Written(BindingPath(f.relativeDir, f.fileName), BindingText(f.fileName, parse(f.content)))] else []
  }

  /** The warnings printed, one per file without functions. */
  function Warnings(files: seq<RustFile>, parse: string -> seq<FunctionSignature>): seq<string>
    decreases |files|
  {
    if files == [] then []
    else
      var f := files[|files| - 1];
      Warnings(files[..|files| - 1], parse) + if Exporting(f, parse) then [] else [Warning(f.path)]
  }

  /** The exports recorded: each file with functions assigns its names to its import path. */
  function Exported(files: seq<RustFile>, parse: string -> seq<FunctionSignature>): Exports
    decreases |files|
  {
    if files == [] then NoExports
    else
      var f := files[|files| - 1];
      var e := Exported(files[..|files| - 1], parse);
      if Exporting(f, parse) then Put(e, ImportPathOf(f), Names(parse(f.content))) else e
  }

  /** `generateBindings` after `glob`: the directories it ensures, the files
      it writes (every binding module, then `index.ts`) and the warnings it
      prints. */
  method GenerateBindings(files: seq<RustFile>) returns (dirs: seq<string>, written: seq<Written>, warnings: seq<string>)
    ensures dirs == Dirs(files) && warnings == Warnings(files, Parsed)
    ensures written == Modules(files, Parsed) + [Written("index.ts", IndexText(Exported(files, Parsed).keys))]
  {
    dirs, written, warnings := ["mod"], [], [];
    var exports := NoExports;
    for i := 0 to |files|
      invariant dirs == Dirs(files[..i]) && written == Modules(files[..i], Parsed)
      invariant warnings == Warnings(files[..i], Parsed) && exports == Exported(files[..i], Parsed)
    {
      assert files[..i + 1][..i] == files[..i];
      var f := files[i];
      dirs := dirs + [TargetDir(f.relativeDir)];
      var functions := ParseRustFile(f.content);
      if |functions| == 0 {
        warnings := warnings + [Warning(f.path)];
        continue;
      }
      var tsContent := GenerateTypeScriptBinding(f.fileName, functions);
      written := written + [Written(BindingPath(f.relativeDir, f.fileName), tsContent)];
      exports := Put(exports, ImportPath(f.relativeDir, f.fileName), Names(functions));
    }
    assert files[..|files|] == files;
    var index := GenerateIndexFile(exports);
    written := written + [Written("index.ts", index)];
  }

  // ---------------------------------------------------------------------
  // What the driver guarantees

  /** Every file either yields one binding module or one warning, and one
      directory is ensured per file after `mod`. */
  lemma {:induction false} RunCounts(files: seq<RustFile>, parse: string -> seq<FunctionSignature>)
    ensures |Dirs(files)| == |files| + 1
    ensures |Modules(files, parse)| + |Warnings(files, parse)| == |files|
    decreases |files|
  {
    if files != [] {
      RunCounts(files[..|files| - 1], parse);
    }
  }

  /** The exports stay well formed. */
  lemma {:induction false} ExportedValid(files: seq<RustFile>, parse: string -> seq<FunctionSignature>)
    ensures ValidExports(Exported(files, parse))
    decreases |files|
  {
    if files != [] {
      var n := |files| - 1;
      ExportedValid(files[..n], parse);
      if Exporting(files[n], parse) {
        PutValid(Exported(files[..n], parse), ImportPathOf(files[n]), Names(parse(files[n].content)));
      }
    }
  }

  /** The key of every file that has functions is in the exports. */
  lemma {:induction false} RunKeyOfFile(files: seq<RustFile>, parse: string -> seq<FunctionSignature>, i: nat)
    requires i < |files| && Exporting(files[i], parse)
    ensures ImportPathOf(files[i]) in Exported(files, parse).names
    decreases |files|
  {
    var n := |files| - 1;
    if i < n {
      assert files[..n][i] == files[i];
      RunKeyOfFile(files[..n], parse, i);
    }
  }

  /** Every key of the exports is the key of a file that has functions. */
  lemma {:induction false} RunKeyHasFile(files: seq<RustFile>, parse: string -> seq<FunctionSignature>, key: string)
    requires key in Exported(files, parse).names
    ensures exists i :: 0 <= i < |files| && Exporting(files[i], parse) && ImportPathOf(files[i]) == key
    decreases |files|
  {
    var n := |files| - 1;
    if Exporting(files[n], parse) && ImportPathOf(files[n]) == key {
      assert 0 <= n < |files| && Exporting(files[n], parse) && ImportPathOf(files[n]) == key;
    } else {
      RunKeyHasFile(files[..n], parse, key);
      var i :| 0 <= i < n && Exporting(files[..n][i], parse) && ImportPathOf(files[..n][i]) == key;
      assert files[i] == files[..n][i];
    }
  }

  /** An import path is a key of the exports exactly when some file that
      has functions was found under it. */
  lemma RunKeys(files: seq<RustFile>, parse: string -> seq<FunctionSignature>, key: string)
    ensures key in Exported(files, parse).names
        <==> exists i :: 0 <= i < |files| && Exporting(files[i], parse) && ImportPathOf(files[i]) == key
  {
    if key in Exported(files, parse).names {
      RunKeyHasFile(files, parse, key);
    }
    if exists i :: 0 <= i < |files| && Exporting(files[i], parse) && ImportPathOf(files[i]) == key {
      var i :| 0 <= i < |files| && Exporting(files[i], parse) && ImportPathOf(files[i]) == key;
      RunKeyOfFile(files, parse, i);
    }
  }

  /** When two files share an import path, the later one's names are those recorded. */
  lemma {:induction false} RunLastWins(files: seq<RustFile>, parse: string -> seq<FunctionSignature>, i: nat)
    requires i < |files| && Exporting(files[i], parse)
    requires forall j :: i < j < |files| && Exporting(files[j], parse) ==> ImportPathOf(files[j]) != ImportPathOf(files[i])
    ensures ImportPathOf(files[i]) in Exported(files, parse).names
    ensures Exported(files, parse).names[ImportPathOf(files[i])] == Names(parse(files[i].content))
    decreases |files|
  {
    var n := |files| - 1;
    if i < n {
      forall j | i < j < n && Exporting(files[..n][j], parse)
        ensures ImportPathOf(files[..n][j]) != ImportPathOf(files[..n][i])
      {
        assert files[..n][j] == files[j];
      }
      assert files[..n][i] == files[i];
      RunLastWins(files[..n], parse, i);
    }
  }

  /** Every key of the exports names a binding module the run has written. */
  lemma {:induction false} RunKeysWritten(files: seq<RustFile>, parse: string -> seq<FunctionSignature>, key: string)
    requires key in Exported(files, parse).names
    ensures exists w :: w in Modules(files, parse) && w.path == Resolve(key)
    decreases |files|
  {
    var n := |files| - 1;
    var pre := Modules(files[..n], parse);
    var f := files[n];
    if Exporting(f, parse) && key == ImportPathOf(f) {
      ImportPathResolves(f.relativeDir, f.fileName);
      assert Modules(files, parse)[|pre|].path == Resolve(key);
    } else {
      RunKeysWritten(files[..n], parse, key);
      var w :| w in pre && w.path == Resolve(key);
      assert w in Modules(files, parse);
    }
  }

  /** A file whose directory and name hold no quote or line feed. */
  predicate PlainFile(f: RustFile) {
    '"' !in f.relativeDir && '"' !in f.fileName && '\n' !in f.relativeDir && '\n' !in f.fileName
  }

  lemma ImportPathPlain(f: RustFile)
    requires PlainFile(f)
    ensures '"' !in ImportPathOf(f) && '\n' !in ImportPathOf(f)
  {
  }

  /** Every line of the index `generateBindings` writes re-exports a module
      whose binding the same run has written. */
  lemma IndexResolves(files: seq<RustFile>, parse: string -> seq<FunctionSignature>)
    requires forall i :: 0 <= i < |files| ==> PlainFile(files[i])
    ensures var keys := Exported(files, parse).keys;
      var ls := SplitOn(IndexText(keys), '\n');
      |ls| == |keys| + 2
      && forall k :: 0 <= k < |keys| ==> exists w :: w in Modules(files, parse) && w.path == Resolve(ImportedPath(ls[k]))
  {
    var e := Exported(files, parse);
    var keys := e.keys;
    ExportedValid(files, parse);
    forall k | 0 <= k < |keys| ensures '\n' !in keys[k] && '"' !in keys[k] {
      assert keys[k] in e.names;
      RunKeyHasFile(files, parse, keys[k]);
      var i :| 0 <= i < |files| && Exporting(files[i], parse) && ImportPathOf(files[i]) == keys[k];
      ImportPathPlain(files[i]);
    }
    IndexReadBack(keys);
    var ls := SplitOn(IndexText(keys), '\n');
    forall k | 0 <= k < |keys| ensures exists w :: w in Modules(files, parse) && w.path == Resolve(ImportedPath(ls[k])) {
      assert keys[k] in e.names;
      RunKeysWritten(files, parse, keys[k]);
    }
  }

  /** Every binding module the run writes is the module text for the parse
      of some file, at that file's binding path. */
  lemma {:induction false} RunWrittenBindings(files: seq<RustFile>, parse: string -> seq<FunctionSignature>, w: Written)
    requires w in Modules(files, parse)
    ensures exists i :: (0 <= i < |files| && Exporting(files[i], parse)
      && w == Written(BindingPath(files[i].relativeDir, files[i].fileName), BindingText(files[i].fileName, parse(files[i].content))))
    decreases |files|
  {
    var n := |files| - 1;
    if w in Modules(files[..n], parse) {
      RunWrittenBindings(files[..n], parse, w);
      var i :| 0 <= i < n && Exporting(files[..n][i], parse)
        && w == Written(BindingPath(files[..n][i].relativeDir, files[..n][i].fileName), BindingText(files[..n][i].fileName, parse(files[..n][i].content)));
      assert files[..n][i] == files[i];
    } else {
      assert Exporting(files[n], parse);
    }
  }

  /** Every file without functions has its warning printed. */
  lemma {:induction false} RunWarningOfFile(files: seq<RustFile>, parse: string -> seq<FunctionSignature>, i: nat)
    requires i < |files| && !Exporting(files[i], parse)
    ensures Warning(files[i].path) in Warnings(files, parse)
    decreases |files|
  {
    var n := |files| - 1;
    if i < n {
      assert files[..n][i] == files[i];
      RunWarningOfFile(files[..n], parse, i);
    }
  }

  /** Every warning names the path of a file without functions. */
  lemma {:induction false} RunWarningHasFile(files: seq<RustFile>, parse: string -> seq<FunctionSignature>, message: string)
    requires message in Warnings(files, parse)
    ensures exists i :: 0 <= i < |files| && !Exporting(files[i], parse) && message == Warning(files[i].path)
    decreases |files|
  {
    var n := |files| - 1;
    if message in Warnings(files[..n], parse) {
      RunWarningHasFile(files[..n], parse, message);
      var i :| 0 <= i < n && !Exporting(files[..n][i], parse) && message == Warning(files[..n][i].path);
      assert files[i] == files[..n][i];
    } else {
      assert 0 <= n < |files| && !Exporting(files[n], parse) && message == Warning(files[n].path);
    }
  }

  /** A warning is printed exactly for each file without functions, naming its path. */
  lemma RunWarnings(files: seq<RustFile>, parse: string -> seq<FunctionSignature>, message: string)
    ensures message in Warnings(files, parse)
        <==> exists i :: 0 <= i < |files| && !Exporting(files[i], parse) && message == Warning(files[i].path)
  {
    if message in Warnings(files, parse) {
      RunWarningHasFile(files, parse, message);
    }
    if exists i :: 0 <= i < |files| && !Exporting(files[i], parse) && message == Warning(files[i].path) {
      var i :| 0 <= i < |files| && !Exporting(files[i], parse) && message == Warning(files[i].path);
      RunWarningOfFile(files, parse, i);
    }
  }

  /** The binding module written for a Rust file ends by exporting, in
      order, exactly the functions parsed from it. */
  lemma ParsedBindingExports(fileName: string, content: string)
    requires '\n' !in fileName
    ensures var fns := Parsed(content);
      var ls := SplitOn(BindingText(fileName, fns), '\n');
      && |ls| == 8 + 5 * |fns|
      && forall k :: 0 <= k < |fns| ==> ExportedName(ls[7 + 4 * |fns| + k]) == fns[k].name
  {
    var fns := Parsed(content);
    ParsedNames(content);
    forall k | 0 <= k < |fns| ensures PlainName(fns[k].name) {
      assert WordName(fns[k].name);
    }
    BindingReadBack(fileName, fns);
  }

  /** The paths the index as written re-exports instead of the keys: `./mod/` and the base name. */
  function BaseImportPaths(keys: seq<string>): (r: seq<string>)
    ensures |r| == |keys| && forall k :: 0 <= k < |keys| ==> r[k] == "./mod/" + Basename(keys[k])
  {
    seq(|keys|, k requires 0 <= k < |keys| => "./mod/" + Basename(keys[k]))
  }

  /** The index as written is the index of the base-name paths; it agrees
      with the corrected index exactly when every key is already of that
      form, as the keys of files directly in `rs/` are. */
  lemma IndexAsWritten(keys: seq<string>)
    ensures IndexTextAsWritten(keys) == IndexText(BaseImportPaths(keys))
    ensures (forall k :: 0 <= k < |keys| ==> keys[k] == "./mod/" + Basename(keys[k]))
        ==> IndexTextAsWritten(keys) == IndexText(keys)
  {
    forall k | 0 <= k < |keys|
      ensures IndexLinesAsWritten(keys)[k] == IndexLines(BaseImportPaths(keys))[k]
    {
      var b := Basename(keys[k]);
      assert "export * from \"./mod/" + b + "\";" == "export * from \"" + ("./mod/" + b) + "\";";
    }
    assert IndexLinesAsWritten(keys) == IndexLines(BaseImportPaths(keys));
    if forall k :: 0 <= k < |keys| ==> keys[k] == "./mod/" + Basename(keys[k]) {
      assert BaseImportPaths(keys) == keys;
    }
  }

  /** The index as written, read back line by line: one re-export per key,
      each importing `./mod/` and the key's base name, then an empty line
      and the empty piece after the last line feed. */
  lemma IndexReadBackAsWritten(keys: seq<string>)
    requires forall k :: 0 <= k < |keys| ==> '\n' !in keys[k] && '"' !in keys[k]
    ensures var ls := SplitOn(IndexTextAsWritten(keys), '\n');
      && |ls| == |keys| + 2 && ls[|keys|] == "" && ls[|keys| + 1] == ""
      && forall k :: 0 <= k < |keys| ==> ImportedPath(ls[k]) == "./mod/" + Basename(keys[k])
  {
    var base := BaseImportPaths(keys);
    forall k | 0 <= k < |base| ensures '\n' !in base[k] && '"' !in base[k] {
      BasenameKeepsAbsence(keys[k], '\n');
      BasenameKeepsAbsence(keys[k], '"');
    }
    IndexAsWritten(keys);
    IndexReadBack(base);
  }

  /** Two files of the same name in different directories get different
      keys, but the index as written re-exports the same path twice. */
  lemma SameNameCollides()
    ensures ImportPath("net", "io") != ImportPath("fs", "io")
    ensures IndexLineAsWritten(ImportPath("net", "io")) == IndexLineAsWritten(ImportPath("fs", "io"))
  {
    BasenameOfImportPath("net", "io");
    BasenameOfImportPath("fs", "io");
    assert ImportPath("net", "io")[6] != ImportPath("fs", "io")[6];
  }
}
