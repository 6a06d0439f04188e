# Comment-block editing in the Boilerplate wizard's project service

The project service of the Boilerplate wizard post-processes a freshly
generated project. Its central operation, `EditCommentInternal`, walks the
lines of one file and acts on blocks delimited by named marker comments such
as `// $Start-Feature$` … `// $End-Feature$`. The marker lines always go. The
lines between them are deleted (`DeleteCode`), kept verbatim, or kept with one
layer of comment decoration removed (`UncommentCode`). The comment dialect
(`//`, `<!-- -->`, `@* *@` or `#`) follows from the file extension, compared
ignoring case. The service's literal `ReplaceInFile` is modelled as well, as
the text transformation it applies.

The project has five modules:

- `Wrappers` holds `Option` and `Result`.
- `Strings` holds the .NET string operations the code calls, with ordinal
  comparison: `StartsWith`, `EndsWith`, `Contains`, `IndexOf`, `LastIndexOf`,
  `TrimStart`, `TrimEnd`, and `OrdinalIgnoreCase` equality.
- `Comments` holds the private `Comment` and `NamedComment` classes as values:
  `Dialect`, `GetComment`, `Markers`, `NamedComment`.
- `EditComment` holds the per-line uncommenting (`StripStart`, `StripEnd`,
  `Uncomment`) and the recursive specification `Scan` of the line scan. The
  whole edit of one file is the function `Edit`. `EditCommentInternal` is the
  imperative loop of the source, and it is proved equal to `Edit`.
- `TextReplace` holds `string.Replace` and `ReplaceInFile`.

Some behaviour of the code is easy to miss, and the model keeps it:

- A line holding both markers only opens a block.
- A start marker met inside a block is an ordinary interior line, so blocks
  do not nest.
- An unterminated block runs to the end of the file, without error.
- Under `UncommentCode`, a line that is, after its indentation, exactly the
  start token makes the code read one character past the end of the line.
  The model raises `IndexOutOfRange` there, and the file is not written
  (`UncommentFailsIff`). A block throws exactly when one of its interior
  lines is such a line (`BlockFailsIff`).
- The code removes the space after the start token whenever the next
  character is a space, even when more spaces follow; a second space stays
  (`UncommentLineComment`).
- The end token is removed at its last occurrence, and white space after it
  stays (`StripEndTrailing`).

## Model

| member | source | states |
|---|---|---|
| Comments.GetComment | Source/Boilerplate.Wizard/Services/ProjectService.cs:236-265 | the dialect returned is one of the four static dialects, and its tokens are non-empty and not padded with white space |
| Comments.GetCommentByExtension | Source/Boilerplate.Wizard/Services/ProjectService.cs:238-264 | an extension gets `//`, `<!-- -->`, `@* *@` or `#` exactly when it equals, ignoring case, one of that dialect's extensions; it gets null exactly when it matches none |
| Comments.GetCommentSlash | Source/Boilerplate.Wizard/Services/ProjectService.cs:238-246 | `//` exactly for .cs, .js, .ts, .json, .css and .scss, in any case |
| Comments.GetCommentXml | Source/Boilerplate.Wizard/Services/ProjectService.cs:247-253 | `<!-- -->` exactly for .html, .config, .xproj and .xml, in any case |
| Comments.GetCommentRazor | Source/Boilerplate.Wizard/Services/ProjectService.cs:254-257 | `@* *@` exactly for .cshtml, in any case |
| Comments.GetCommentText | Source/Boilerplate.Wizard/Services/ProjectService.cs:258-262 | `#` exactly for .ini and .txt, in any case |
| Comments.GetCommentIgnoresCase | Source/Boilerplate.Wizard/Services/ProjectService.cs:238-262 | two extensions equal under OrdinalIgnoreCase get the same dialect |
| Comments.NamedComment | Source/Boilerplate.Wizard/Services/ProjectService.cs:199-204 | both markers begin with the start token and end with the space and end token (nothing when the dialect has none); the two markers differ |
| Comments.StartMarkerDeterminesName | Source/Boilerplate.Wizard/Services/ProjectService.cs:202 | the start marker determines the block name |
| Comments.EndMarkerDeterminesName | Source/Boilerplate.Wizard/Services/ProjectService.cs:203 | the end marker determines the block name |
| Comments.StartMarkerIsNeverEndMarker | Source/Boilerplate.Wizard/Services/ProjectService.cs:201-203 | no block's start marker is any block's end marker |
| Comments.EndSuffix | Source/Boilerplate.Wizard/Services/ProjectService.cs:201 | the text after `$` in a marker: a space and the end token, or nothing for a dialect without one; its consequences are stated by `NamedComment`'s ensures |
| Comments.DialectsDistinct | Source/Boilerplate.Wizard/Services/ProjectService.cs:213-216 | the four dialects `@* *@`, `//`, `#` and `<!-- -->` have non-empty tokens not padded with white space, and no two share a start token |
| Strings.TrimStart | Source/Boilerplate.Wizard/Services/ProjectService.cs:160 | TrimStart returns a suffix of the line that is empty or starts with a non-white-space character |
| Strings.TrimStartDropsWhiteSpace | Source/Boilerplate.Wizard/Services/ProjectService.cs:160 | everything TrimStart removes is white space |
| Strings.TrimEnd | Source/Boilerplate.Wizard/Services/ProjectService.cs:169 | TrimEnd returns a prefix of the line that is empty or ends with a non-white-space character |
| Strings.TrimEndDropsWhiteSpace | Source/Boilerplate.Wizard/Services/ProjectService.cs:169 | everything TrimEnd removes is white space |
| Strings.IsWhiteSpace | Source/Boilerplate.Wizard/Services/ProjectService.cs:160-169 | char.IsWhiteSpace, the characters TrimStart and TrimEnd remove: the space separators (U+0020, U+00A0, U+1680, U+2000 to U+200A, U+202F, U+205F, U+3000), U+2028, U+2029, U+0009 to U+000D and U+0085 |
| Strings.IndexOf | Source/Boilerplate.Wizard/Services/ProjectService.cs:162 | the token occurs at the index returned and at no earlier index |
| Strings.LastIndexOf | Source/Boilerplate.Wizard/Services/ProjectService.cs:171 | the token occurs at the index returned and at no later index |
| Strings.StartsWith | Source/Boilerplate.Wizard/Services/ProjectService.cs:160 | ordinal StartsWith: the prefix of the text's length equals the value; `StartTokenAfterIndent` states where the start token then lies |
| Strings.EndsWith | Source/Boilerplate.Wizard/Services/ProjectService.cs:169 | ordinal EndsWith; `StripEndTrailing` and `StripEndDecorated` state what the second step does when it holds |
| Strings.Contains | Source/Boilerplate.Wizard/Services/ProjectService.cs:150 | ordinal Contains: an occurrence at some position; `IndexOf` and `LastIndexOf` pick the first and last such position |
| Strings.EqualsIgnoreCase | Source/Boilerplate.Wizard/Services/ProjectService.cs:238-259 | OrdinalIgnoreCase equality as equality of upper-case forms; `GetCommentIgnoresCase` states the dialect choice respects it |
| EditComment.StripStart | Source/Boilerplate.Wizard/Services/ProjectService.cs:160-167 | the first step throws IndexOutOfRange exactly when the token is at the start of the trimmed line and its first occurrence ends the line; otherwise it shortens such a line by the token's length plus zero or one character; a line without the token is unchanged |
| EditComment.CutToken | Source/Boilerplate.Wizard/Services/ProjectService.cs:162-166 | reading the character after the token fails exactly when the token ends the line; otherwise the line loses the token's length plus zero or one character |
| EditComment.StripEnd | Source/Boilerplate.Wizard/Services/ProjectService.cs:169-174 | the second step removes exactly the end token's length when the right-trimmed line ends with the end token; otherwise the line is unchanged |
| EditComment.Cut | Source/Boilerplate.Wizard/Services/ProjectService.cs:172-173 | removing the end token shortens the line by its length |
| EditComment.Uncomment | Source/Boilerplate.Wizard/Services/ProjectService.cs:158-175 | uncommenting never lengthens a line, and its only failure is IndexOutOfRange |
| EditComment.UncommentFailsIff | Source/Boilerplate.Wizard/Services/ProjectService.cs:160-166 | uncommenting throws exactly when the left-trimmed line is the bare start token |
| EditComment.UncommentRoundTrip | Source/Boilerplate.Wizard/Services/ProjectService.cs:158-175 | in every dialect, uncommenting `start + " " + code + end` gives back `code` |
| EditComment.StripStartDecorated | Source/Boilerplate.Wizard/Services/ProjectService.cs:160-167 | a line that is the start token, a space and a tail becomes the tail |
| EditComment.StripEndDecorated | Source/Boilerplate.Wizard/Services/ProjectService.cs:169-174 | a line that is code followed by the end token becomes the code |
| EditComment.StripEndTrailing | Source/Boilerplate.Wizard/Services/ProjectService.cs:169-174 | a line that is code, the end token and trailing white space becomes the code followed by that white space |
| EditComment.EndTokenLastBeforeWhiteSpace | Source/Boilerplate.Wizard/Services/ProjectService.cs:171 | when only white space follows the end token, LastIndexOf finds that occurrence |
| EditComment.TrimEndSkips | Source/Boilerplate.Wizard/Services/ProjectService.cs:169 | TrimEnd of a text followed by white space is TrimEnd of that text |
| EditComment.StartTokenAfterIndent | Source/Boilerplate.Wizard/Services/ProjectService.cs:160-162 | when the trimmed line starts with the token, IndexOf finds it right after the indentation |
| EditComment.StartTokenAfterWhiteSpace | Source/Boilerplate.Wizard/Services/ProjectService.cs:160-162 | after an indentation, the token is what TrimStart exposes and where IndexOf finds it |
| EditComment.TrimStartSkips | Source/Boilerplate.Wizard/Services/ProjectService.cs:160 | TrimStart of white space followed by a text is TrimStart of that text |
| EditComment.CutAfterIndent | Source/Boilerplate.Wizard/Services/ProjectService.cs:163-166 | cutting a token that follows an indentation keeps the indentation, and drops at most one space after the token |
| EditComment.StripStartIndented | Source/Boilerplate.Wizard/Services/ProjectService.cs:160-167 | an indented line beginning with the start token keeps its indentation and loses the token and at most one space |
| EditComment.UncommentLineComment | Source/Boilerplate.Wizard/Services/ProjectService.cs:158-175 | in a line-comment dialect an indented commented line keeps its indentation and loses the token, and the space after it when there is one; a second space stays |
| EditComment.Scan | Source/Boilerplate.Wizard/Services/ProjectService.cs:145-188 | the scan never writes more lines than it reads, and it can fail only under UncommentCode, with IndexOutOfRange |
| EditComment.Interior | Source/Boilerplate.Wizard/Services/ProjectService.cs:154-158 | an interior line kept by KeepCode is unchanged; an edited line is never longer; only UncommentCode can fail, with IndexOutOfRange |
| EditComment.Edit | Source/Boilerplate.Wizard/Services/ProjectService.cs:129-191 | nothing is read or written exactly when the extension has no dialect; the lines written are no more than those read; an exception escapes only under UncommentCode |
| EditComment.EditCommentInternal | Source/Boilerplate.Wizard/Services/ProjectService.cs:129-191 | the loop over the lines, with its isUncommenting flag, produces exactly the outcome of `Edit` |
| EditComment.OutsideLines | Source/Boilerplate.Wizard/Services/ProjectService.cs:180-187 | the lines outside every block are no more than the file's lines, and none of them holds a start marker |
| EditComment.DeleteKeepsOutsideLines | Source/Boilerplate.Wizard/Services/ProjectService.cs:148-187 | DeleteCode writes exactly the lines outside the blocks, in order |
| EditComment.OutsideLinesPreserved | Source/Boilerplate.Wizard/Services/ProjectService.cs:145-188 | in every mode, the lines outside the blocks appear unchanged and in order in the output |
| EditComment.OutsideRun | Source/Boilerplate.Wizard/Services/ProjectService.cs:184-187 | lines without a start marker, met outside a block, are copied as they are |
| EditComment.NoBlockNoChange | Source/Boilerplate.Wizard/Services/ProjectService.cs:180-187 | a file without a start marker is written back unchanged in every mode |
| EditComment.Block | Source/Boilerplate.Wizard/Services/ProjectService.cs:148-178 | interior lines vanish under DeleteCode, stay as they are under KeepCode, and keep their number otherwise; only UncommentCode can fail |
| EditComment.BlockUncommentsLine | Source/Boilerplate.Wizard/Services/ProjectService.cs:156-177 | under UncommentCode the i-th line written for a block is the uncommented i-th interior line, for one given i |
| EditComment.BlockUncommentsEachLine | Source/Boilerplate.Wizard/Services/ProjectService.cs:156-177 | under UncommentCode the i-th line written for a block is the uncommented i-th interior line |
| EditComment.BlockSucceeds | Source/Boilerplate.Wizard/Services/ProjectService.cs:156-177 | a block whose interior lines all uncomment is uncommented without error |
| EditComment.BlockFailsIffLineFails | Source/Boilerplate.Wizard/Services/ProjectService.cs:156-177 | uncommenting a block fails exactly when one of its interior lines fails |
| EditComment.BlockFailsIff | Source/Boilerplate.Wizard/Services/ProjectService.cs:160-166 | uncommenting a block throws exactly when one of its interior lines, left-trimmed, is the bare start token |
| EditComment.InsideRun | Source/Boilerplate.Wizard/Services/ProjectService.cs:148-178 | inside a block, every line up to the end marker is interior, start markers included: blocks do not nest |
| EditComment.ClosedBlock | Source/Boilerplate.Wizard/Services/ProjectService.cs:148-183 | both marker lines of a closed block go, its interior becomes `Block`, and the scan continues outside |
| EditComment.UnterminatedBlock | Source/Boilerplate.Wizard/Services/ProjectService.cs:145-188 | a block that is never closed runs to the end of the file, without error |
| EditComment.EmptyBlockVanishes | Source/Boilerplate.Wizard/Services/ProjectService.cs:148-183 | a block with no interior lines disappears without trace in every mode |
| EditComment.DeleteThenAnyModeIsNoOp | Source/Boilerplate.Wizard/Services/ProjectService.cs:129-191 | DeleteCode always writes, and a second edit of the same block, in any mode, writes back the same lines |
| EditComment.BlockOfOne | Source/Boilerplate.Wizard/Services/ProjectService.cs:154-177 | a one-line interior becomes that line, edited |
| EditComment.OneLineBlock | Source/Boilerplate.Wizard/Services/ProjectService.cs:145-188 | around a one-line block the other lines are kept, and the interior line is dropped by DeleteCode and edited otherwise |
| EditComment.FeatureStartMarker | Source/Boilerplate.Wizard/Services/ProjectService.cs:202 | the start marker of block `Feature` in a `//` file is `// $Start-Feature$` |
| EditComment.FeatureEndMarker | Source/Boilerplate.Wizard/Services/ProjectService.cs:203 | the end marker of block `Feature` in a `//` file is `// $End-Feature$` |
| EditComment.FeatureMarkers | Source/Boilerplate.Wizard/Services/ProjectService.cs:199-204 | a .cs file uses `//`, and block `Feature` has the markers above |
| EditComment.EditWrites | Source/Boilerplate.Wizard/Services/ProjectService.cs:129-190 | a supported file whose scan succeeds is written with the scan's lines |
| EditComment.EditThrows | Source/Boilerplate.Wizard/Services/ProjectService.cs:129-191 | a supported file whose scan throws lets the exception escape, and nothing is written |
| EditComment.DeleteExample | Source/Boilerplate.Wizard/Services/ProjectService.cs:129-191 | deleting block `Feature` from `a, start, b, end, c` in a .cs file writes `a, c` |
| EditComment.UncommentSlashLine | Source/Boilerplate.Wizard/Services/ProjectService.cs:158-175 | uncommenting `// code` in a `//` file gives `code` |
| EditComment.SlashBlockScan | Source/Boilerplate.Wizard/Services/ProjectService.cs:145-188 | a `//` block around the one line `// code` is uncommented to `code`, and the lines around it are kept |
| EditComment.UncommentExampleScan | Source/Boilerplate.Wizard/Services/ProjectService.cs:145-188 | the scan of `a, start, // code, end, c` under UncommentCode gives `a, code, c` |
| EditComment.UncommentExample | Source/Boilerplate.Wizard/Services/ProjectService.cs:129-191 | uncommenting block `Feature` in a .cs file with lines `a, start, // code, end, c` writes `a, code, c` |
| TextReplace.ReplaceWithoutOccurrence | Source/Boilerplate.Wizard/Services/ProjectService.cs:85 | a text in which the old value does not occur is left unchanged |
| TextReplace.Replace | Source/Boilerplate.Wizard/Services/ProjectService.cs:85 | ordinal string.Replace: every leftmost, non-overlapping occurrence of the old value becomes the new value, as `ReplaceWithoutOccurrence`, `ReplaceLeftmost` and `ReplaceBySameValue` state |
| TextReplace.ReplaceLeftmost | Source/Boilerplate.Wizard/Services/ProjectService.cs:85 | the leftmost occurrence of the old value is the one replaced; the text before it stays and replacing resumes after it |
| TextReplace.ReplaceAtStart | Source/Boilerplate.Wizard/Services/ProjectService.cs:85 | an occurrence at the start of the text is replaced, and replacing resumes after it |
| TextReplace.ReplaceSkipsFirst | Source/Boilerplate.Wizard/Services/ProjectService.cs:85 | a text that does not start with the old value keeps its first character |
| TextReplace.ReplaceBySameValue | Source/Boilerplate.Wizard/Services/ProjectService.cs:85 | replacing a value by itself changes nothing |
| TextReplace.ReplaceInFile | Source/Boilerplate.Wizard/Services/ProjectService.cs:79-88 | a missing file is left alone; an empty old value throws ArgumentException and nothing is written; otherwise the file is written, unchanged when the old value does not occur |

## Left out

- Reading and writing files is not modelled. A file's extension and lines, or its text as an `Option`, are parameters, and the result is the lines or the text that would be written.
- `Path.GetExtension` and `Path.Combine` are not part of this model. The extension is an input.
- async/await is not modelled, and neither is the behaviour of concurrent edits of one file.
- The directory-wide and glob-pattern wrappers, `DeleteFile` and `DeleteDirectory` are not modelled. They only enumerate files or call the file system.
- `EditCommentInFile` is not modelled. It combines the path and skips a missing file before calling `EditCommentInternal`, and both steps belong to the file system.
- `RegexReplaceInFile` is not modelled, because it depends on the .NET regular-expression engine.
- Strings.StartsWith: `StartsWith`, `EndsWith`, `IndexOf` and `LastIndexOf` without a `StringComparison` argument are culture-sensitive in .NET. They are modelled with ordinal comparison.
- Strings.EqualsIgnoreCase: `OrdinalIgnoreCase` folds only the ASCII letters here. The extensions it is compared against are ASCII, but a non-ASCII letter in an extension could in principle fold onto one.
- Strings.IsWhiteSpace: characters are Unicode scalar values, not UTF-16 code units, so surrogate pairs are not modelled.
- `FileReadAllLines` and `FileWriteAllLines` are not modelled, so line-break handling (`\r\n`, a missing final newline) and encodings are not either.
- EditComment.Mode: `EditCommentMode` is tested only with `!= DeleteCode` and `== UncommentCode`, so any other value behaves as `KeepCode`, and the model has only these three.
- TextReplace.Replace: its leftmost, non-overlapping behaviour is stated by lemmas (`ReplaceWithoutOccurrence`, `ReplaceLeftmost`, `ReplaceBySameValue`) rather than as an ensures clause. A null `oldValue` or text, which throws in .NET, is not modelled: Dafny strings are never null.
