# zigport bindings generator, modelled in Dafny

zigport builds Bun FFI bindings for Rust code. It scans each `.rs` file below
`<lib>/rs/` for functions declared `#[no_mangle] pub extern "C" fn`. For
each file with at least one such function it writes a binding module below
`<lib>/mod/`. The module opens the compiled library with `dlopen`, describes
every symbol's FFI argument and return types, and re-exports each symbol.
Finally it writes `<lib>/index.ts`, which re-exports every module.

This project models that core and proves properties of it:

- `text.dfy` (module `Text`): the JavaScript string operations the core
  uses. These are `trim()` and the regular-expression class `\s` (both use
  one white-space set), `\w`, `split` on a single character, and `join`
  with a separator.
- `parser.dfy` (module `Parser`): `parseRustFile`.
  - The declaration pattern is a hand-written recogniser, `MatchAt`. It is
    proved sound, complete and unambiguous against the declarative pattern
    `IsSplit`/`MatchesAt`.
  - The global `exec` loop is `Exec`/`Scan`. They are proved to find exactly
    the leftmost, non-overlapping matches, in order.
  - The construction of each signature is `SignatureAt`, with
    `ArgsOf`/`ArgOf`.
  - The imperative method `ParseRustFile` is proved equal to that
    specification.
- `generator.dfy` (module `Generator`): `generateTypeScriptBinding`,
  `generateIndexFile`, and the loop of `generateBindings`.
  - Each is an imperative method.
  - Each method is proved equal to a specification function: `BindingText`,
    `IndexText`, and `Dirs`, `Modules`, `Warnings` and `Exported` for the
    loop.
  - Properties of those functions are proved as lemmas: read-back round
    trips, the path each index line resolves to, and how the exports record
    is accumulated.
- `wrappers.dfy` (module `Wrappers`): `Option`.

Paths are relative to the library directory. A file's text is a parameter.
Files written, directories ensured and warnings printed are the results of
the methods.

## Model

| member | source | states |
|---|---|---|
| Text.SplitOn | src/parser.ts:32 | `split` on one character gives one more piece than there are separators |
| Text.SplitOnPiecesFree | src/parser.ts:32 | no piece of a split holds the separator |
| Text.JoinSplitOn | src/parser.ts:32 | joining the pieces of a split with the separator gives the text back |
| Text.SplitOnJoin | src/parser.ts:32 | separator-free pieces joined and split again are the pieces |
| Text.TrimParts | src/parser.ts:25 | a text is its leading white space, its trim and its trailing white space; the trim starts and ends with non-space |
| Text.TrimIdempotent | src/parser.ts:35-37 | trimming a trimmed text changes nothing |
| Text.TrimThenSplit | src/parser.ts:34-37 | trimming before splitting at a non-space character makes no difference once every piece is trimmed |
| Text.SplitCommaList | src/generator.ts:89-91 | a list joined with `", "` and split at commas gives the items back after trimming, when items hold no comma and no outer white space |
| Parser.SkipSpaceSpec | src/parser.ts:20 | `\s*` consumes the maximal run of white space |
| Parser.SkipWordSpec | src/parser.ts:20 | `\w+` consumes the maximal run of word characters |
| Parser.FindSpec | src/parser.ts:20 | `[^)]*\)` stops at the first `)` and the skipped text holds none |
| Parser.MatchAtSound | src/parser.ts:19-20 | whatever the recogniser matches at a position satisfies the declarative pattern there |
| Parser.MatchAtComplete | src/parser.ts:19-20 | whenever the pattern can match at a position, the recogniser matches there and agrees on name, parameter text and trimmed return text |
| Parser.MatchAtNone | src/parser.ts:19-20 | when the recogniser fails at a position, no match of the pattern starts there |
| Parser.SplitsAgree | src/parser.ts:19-26 | any two ways the pattern matches at one position give the same name, parameters, trimmed return capture and end |
| Parser.ReturnCaptureTrim | src/parser.ts:26 | the trimmed return capture is the trimmed text between `->` and `{` |
| Parser.Exec | src/parser.ts:23 | `exec` from `lastIndex` gives a match starting at or after it that ends within the text |
| Parser.ExecFinds | src/parser.ts:23 | a match returned by `exec` is the leftmost one at or after `lastIndex` |
| Parser.ExecNone | src/parser.ts:23 | when `exec` returns none, the pattern matches nowhere at or after `lastIndex` |
| Parser.ExecLeftmost | src/parser.ts:23 | `exec` gives the leftmost match at or after `lastIndex`, and none exactly when none exists |
| Parser.ScanIsLeftmost | src/parser.ts:23 | the repeated `exec` steps are the leftmost matches, each searched from just after the previous `{` |
| Parser.LeftmostScanUnique | src/parser.ts:23 | any two leftmost scans have the same matches at the same positions and give the same signatures |
| Parser.ParsedIsLeftmostScan | src/parser.ts:23-43 | the parse equals the signatures of any leftmost non-overlapping scan |
| Parser.LeftmostScanOrdered | src/parser.ts:23 | the matches lie within the text, in source order, without overlapping |
| Parser.NoneFound | src/parser.ts:16-45 | the result is empty exactly when the pattern matches nowhere |
| Parser.SignatureShape | src/parser.ts:24-42 | the name is the non-empty word captured; parameters are the trimmed text up to the first `)`; return type is the trimmed arrow text or `void`, never empty, with no `{` |
| Parser.ParsedNames | src/parser.ts:20-24 | every reported function name is a non-empty run of word characters |
| Parser.ArgsOfParts | src/parser.ts:33-39 | one argument per comma-separated part |
| Parser.ArgsOfParameters | src/parser.ts:25-40 | blank parameter text yields no argument; otherwise one argument per comma plus one, the k-th built from the k-th part |
| Parser.ArgOfPieces | src/parser.ts:34-38 | the argument name is the trimmed text before the first `:`; the type is present exactly when there is a `:`, and is then the trimmed text up to the next `:` |
| Parser.ArgOfTrim | src/parser.ts:34-35 | trimming a part first changes nothing |
| Parser.PathTypeFirstSegment | src/parser.ts:34-38 | a path type such as `std::ffi::c_int` yields its first segment as the type |
| Parser.TrailingCommaArgument | src/parser.ts:32-38 | a trailing comma after any non-empty parameter text keeps the arguments of that text and adds one more, with empty name and no type |
| Parser.ParseArgs | src/parser.ts:28-40 | the argument loop builds exactly the arguments of the specification |
| Parser.SignatureOfMatch | src/parser.ts:24-42 | the loop body builds exactly the signature of the match |
| Parser.ParseRustFile | src/parser.ts:14-46 | the `exec` loop returns the signatures of the scan, in order |
| Generator.MapType | src/generator.ts:66-93 | the 15 listed types map to themselves; any other type, or a missing one, maps to `u64`; the result is always one of the 15 |
| Generator.MapTypeIdempotent | src/generator.ts:66-82 | translating a translated type changes nothing |
| Generator.TypePlain | src/generator.ts:66-82 | every FFI type name is non-empty, without comma, line feed or trailing white space |
| Generator.FfiArgs | src/generator.ts:89-91 | one `FFIType.<mapped type>` per argument, in order |
| Generator.UnlinesSplit | src/generator.ts:62-103 | text built line by line splits at line feeds into its lines and a final empty piece |
| Generator.GenerateTypeScriptBinding | src/generator.ts:54-106 | the appended text is exactly the module text of the file name and functions |
| Generator.BindingStartsWithHeader | src/generator.ts:62-85 | the module starts with the `bun:ffi` import, the base directory and the `dlopen` call for `<fileName>.${suffix}` |
| Generator.HeaderText | src/generator.ts:62-85 | the header lines joined with line feeds are the import, a blank line, the base directory, a blank line and the `dlopen` line |
| Generator.BindingLinesAt | src/generator.ts:62-103 | the module has `7+5n` lines for `n` functions; the symbol descriptions start at line 5 and the exports at line `7+4n` |
| Generator.BindingBlock | src/generator.ts:87-96 | lines `5+4k` to `8+4k` describe the k-th function: its name, its argument types and its mapped return type |
| Generator.BindingReadBack | src/generator.ts:62-103 | the module split into lines gives its line list; its last lines export the functions' names, in order, duplicates kept |
| Generator.ExportLineRoundTrip | src/generator.ts:102 | an export line's third word is the exported name |
| Generator.ArgListRoundTrip | src/generator.ts:89-91 | the `args` list split at commas and trimmed gives each argument's FFI type, in order |
| Generator.ParsedBindingExports | src/generator.ts:101-103 | the module written for a Rust file exports exactly the parsed functions, in order |
| Generator.ImportPathResolves | src/generator.ts:36-45 | the recorded import path names the file the binding is written to |
| Generator.BasenameOfImportPath | src/generator.ts:116 | the base name of an import path is the Rust file's name |
| Generator.PutValid | src/generator.ts:47 | assigning a key keeps keys distinct and equal to the record's domain, stores the value, keeps other entries, appends only new keys |
| Generator.Names | src/generator.ts:47 | the recorded names are the functions' names, in order |
| Generator.IndexLineAsWrittenTarget | src/generator.ts:116-119 | the line as written re-exports `./mod/<fileName>`, which is the import path exactly when the file is directly in `rs/` |
| Generator.NestedModuleMissed | src/generator.ts:116-119 | for `rs/net/http.rs` the line as written names `mod/http.ts`, while the binding is `mod/net/http.ts` |
| Generator.SameNameCollides | src/generator.ts:116-119 | two files of one name in different directories get distinct keys but identical lines as written |
| Generator.IndexAsWritten | src/generator.ts:112-122 | the index as written is the index of the base-name paths, and equals the corrected one when all modules are top-level |
| Generator.IndexLineRoundTrip | src/generator.ts:119 | the corrected line imports exactly its key |
| Generator.GenerateIndexFile | src/generator.ts:108-126 | the appended text of the corrected index: one re-export line per key, naming the key itself, in insertion order, and then an empty line |
| Generator.IndexReadBack | src/generator.ts:112-122 | the corrected index split into lines gives one line per key importing that key, then two empty pieces |
| Generator.IndexReadBackAsWritten | src/generator.ts:112-122 | the index as written split into lines gives one line per key importing `./mod/` and the key's base name, then two empty pieces |
| Generator.GenerateBindings | src/generator.ts:6-52 | the directories, files written and warnings are those of the loop specification, with the index last |
| Generator.RunCounts | src/generator.ts:8-47 | one directory per file after `mod`; each file yields one binding or one warning |
| Generator.ExportedValid | src/generator.ts:15-47 | the exports record built by the loop stays well formed: distinct keys, equal to its domain |
| Generator.RunKeyOfFile | src/generator.ts:30-47 | the import path of every file with functions is a key of the exports |
| Generator.RunKeyHasFile | src/generator.ts:30-47 | every key of the exports is the import path of some file with functions |
| Generator.RunKeys | src/generator.ts:30-47 | an import path is a key exactly when some file with functions is found under it |
| Generator.RunLastWins | src/generator.ts:47 | for a repeated import path, the names recorded are those of the last file |
| Generator.RunKeysWritten | src/generator.ts:36-47 | every key names a binding module written by the run |
| Generator.RunWrittenBindings | src/generator.ts:28-38 | every binding written is the module text of some file's parse, at its binding path |
| Generator.RunWarningOfFile | src/generator.ts:30-33 | every file without functions has its warning printed |
| Generator.RunWarningHasFile | src/generator.ts:30-33 | every warning printed names the path of a file without functions |
| Generator.RunWarnings | src/generator.ts:30-33 | a warning is printed exactly for each file without functions, naming its path |
| Generator.IndexResolves | src/generator.ts:51 | every line of the index imports a module whose binding the run wrote |

## Left out

- Reading the Rust file (`src/parser.ts:15`) is left out: `ParseRustFile` takes the text. Writing files and `fs.ensureDirSync` are left out: they are returned as `Written` records and a list of directories.
- `glob` is left out: the files are an input sequence in the order `glob` returns them. Each file's `relativeDir` and `fileName` come precomputed, standing in for `path.basename`, `path.relative` and `path.dirname`.
- `path.join` normalisation is reduced to joining with `/`, and the library directory prefix is dropped. A `relativeDir` that is not already normalised, and Windows separators, are not modelled.
- Generator.Basename: models POSIX `path.basename` as "drop trailing `/`, take the text after the last `/`". It ignores Windows separators.
- `console.warn` is modelled as a list of warning messages. The `async` signature of `generateBindings` is not modelled.
- Generator.MapType: looking up inherited object keys such as `constructor` or `toString` in `typeMapping` is not modelled. In JavaScript that lookup yields an inherited property rather than a table entry; the model treats those keys as unknown (`u64`).
- Characters are Unicode scalar values. JavaScript strings are UTF-16 code units, so positions inside text with characters outside the Basic Multilingual Plane are not modelled.
- Only the one declaration pattern is modelled, not a general regular-expression engine.
- `src/cli.ts`, `src/utils.ts` and `src/index.ts` are not part of this model. They hold command-line plumbing, clean-up of generated files and package re-exports.
- Generator.GenerateIndexFile: writes the corrected line `export * from "<key>";` for each key, not the line as written, which names `./mod/` and the key's base name (see Findings). `IndexAsWritten` gives the text as written in terms of the corrected one.
- Generator.IndexReadBack: describes the corrected index; for the index as written, `IndexReadBackAsWritten` states the lines it imports.
- Generator.GenerateBindings: writes the corrected index, `IndexText` (see Findings). The index as written is `IndexTextAsWritten`; `IndexAsWritten` relates the two.
- The loop lemmas `RunCounts`, `RunKeys`, `RunLastWins`, `RunKeysWritten`, `RunWrittenBindings`, `RunWarnings` and `IndexResolves` hold for any parse function. They apply to the `ensures` of `GenerateBindings` by taking `parse` to be `Parsed`; the method itself calls none of them.

## Findings

| source | as written | input that shows it | evidently intended | confidence | as-written member | corrected member |
|---|---|---|---|---|---|---|
| src/generator.ts:116-119 | the index line re-exports `./mod/` plus `path.basename(importPath)`, dropping the subdirectory | a file `rs/net/http.rs` with one exported function: its binding is `mod/net/http.ts`, but the index re-exports `./mod/http` | re-export the recorded import path `./mod/net/http` (lines 41-45 compute it with the subdirectory) | medium; not executed | Generator.NestedModuleMissed | Generator.IndexResolves |
