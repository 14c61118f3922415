# viai18n-vite core in Dafny

A model of the text-extraction, rewrite and catalog logic of the Vite
plugin `vite-plugin-vue-viai18n`. The plugin finds Chinese text in `.vue`
single-file components and `.js` modules. It replaces each text with a call
to a generated lookup function keyed by a short hash. It keeps a
`<file>.messages.json` catalog mapping language → key → original text. It
prepends an import of that catalog and the lookup function, led by a
`/* viai18n-disable */` marker.

The model is functional: strings are `seq<char>`, catalogs are maps of
maps, and every operation is a pure function returning `Result`/`Option`
where the JavaScript throws or finds nothing. The collaborators the plugin
calls are parameters:

- the user's match regex: `matches: string -> bool`, with the default character class as `Text.ChineseMatch`;
- esprima's tokenizer: `tokenize`;
- htmlparser2's attribute and text callbacks: `parseMarkup`;
- blueimp-md5: `md5`, returning 32 lower-case hex digits;
- the catalog file on disk: `Option<Catalog>`;
- the generated lookup code: `lookups`.

Modules, in dependency order:

| file | module | what it holds |
|---|---|---|
| wrappers.dfy | Wrappers | `Option`, `Result` and the error kinds the source throws |
| strings.dfy | Strings | substring search (`indexOf`, `lastIndexOf`), first-occurrence replacement, concatenation |
| text.dfy | Text | `trimText`, `removeQuotes`, `nameAsVariable`, `getFileName`, `getTextKey`, the default matcher |
| escape.dfy | Escaping | `regSafeText` and what the escaped text denotes as a regular expression |
| regions.dfy | Regions | `removeComments`, `matchTemplate`, `matchScript` and its composable test, `matchDefaultObject` |
| patterns.dfy | Patterns | the patterns replacers carry and `String.prototype.replace` with a literal replacement |
| replacers.dfy | Replacers | `generateScriptReplacers`, the attribute callback of `generateTemplateReplacers`, `parseExpressionInTemplate` |
| inject.dfy | Inject | the inserted import text, `findFunctionText`, `insertTransMethod`, `insertComposableTransMethod` |
| catalog.dfy | Catalogs | `syncJsonFile`'s skip test and merge, `sortObjectByKey`, `compressMessages` and its decoder |
| pipeline.dfy | Pipeline | `processI18n`: accessor name, catalog path, `.vue` split, replacer dispatch, catalog data, injection |
| substitution.dfy | Substitution | `replace` with a string replacement, `$` patterns expanded (see Findings) |

## Model

| member | source | states |
|---|---|---|
| Text.ChineseMatchAppend | vite-plugin-vue-viai18n/utils.js:5 | the default matcher matches a concatenation exactly when it matches one half, since it is a one-character class with `+` |
| Text.TrimText | vite-plugin-vue-viai18n/utils.js:176-178 | the result is a slice of the input that drops only blanks at both ends and starts and ends with a non-blank; internal whitespace is kept |
| Text.TrimTextOfPadded | vite-plugin-vue-viai18n/utils.js:176-178 | blanks + t + blanks trims to exactly t when t has no blank at either end |
| Text.TrimTextIdempotent | vite-plugin-vue-viai18n/utils.js:176-178 | trimming twice is trimming once |
| Text.RemoveQuotes | vite-plugin-vue-viai18n/utils.js:13-15 | a returned body is at least two characters shorter than the text; a text the regex does not match gives `QuotesMissing` |
| Text.RemoveQuotesShape | vite-plugin-vue-viai18n/utils.js:13-15 | an accepted text is blanks, a quote, a line with no terminator, a quote and blanks, and the body returned is that line |
| Text.RemoveQuotesOfQuoted | vite-plugin-vue-viai18n/utils.js:13-15 | conversely, every text of that shape is accepted and gives back its line |
| Text.NameAsVariable | vite-plugin-vue-viai18n/utils.js:172-174 | the result starts with `:`; it is the name itself when that already starts with `:`, else `:` + name |
| Text.NameAsVariableIdempotent | vite-plugin-vue-viai18n/utils.js:172-174 | applying it twice equals applying it once |
| Text.LastSegment | vite-plugin-vue-viai18n/utils.js:8-9 | the segment has no `/` and is the suffix of the path that starts at its front or right after a `/` |
| Text.LastSegmentOf | vite-plugin-vue-viai18n/utils.js:8-9 | conversely, any suffix with no `/` that starts the path or follows a `/` is the segment |
| Text.GetFileName | vite-plugin-vue-viai18n/utils.js:7-11 | the result has no `/` and is the stem of the suffix after the last `/`, or of the whole path when there is none |
| Text.GetFileNameOf | vite-plugin-vue-viai18n/utils.js:7-11 | the file name of `file` and of `dir/file` is the stem of `file`, for any directory |
| Text.Stem | vite-plugin-vue-viai18n/utils.js:10 | with a dot, the file is the stem followed by an extension that starts with the last dot; without one, `slice(0, -1)` drops the last character |
| Text.GetTextKey | vite-plugin-vue-viai18n/utils.js:180-186 | with s the text without whitespace, lengths counted in UTF-16 code units as `length` and `slice` count them: if s has at most 8 units the key is s; otherwise the key is the stem `slice(0, 8)` keeps, `_` and the first four md5 digits, and is longer than 8 units; the key has no blank |
| Text.KeyStemUnique | vite-plugin-vue-viai18n/utils.js:182 | a text has only one key stem, so the key of a long text is fixed by its contract |
| Text.KeyEquality | vite-plugin-vue-viai18n/utils.js:180-186 | two texts share a key exactly when both are short (at most 8 units) with equal stripped text, or both long with equal 8-unit prefixes and equal digest digits |
| Escaping.RegSafeTextIsEscape | vite-plugin-vue-viai18n/utils.js:163-170 | the eleven chained replacements equal escaping each of `* . + ^ [ ] ? $ ( ) \|` with one backslash, character by character |
| Escaping.SpecialsListed | vite-plugin-vue-viai18n/utils.js:163-170 | the eleven characters replaced are exactly the ones the escaping predicate names |
| Escaping.EscapeLength | vite-plugin-vue-viai18n/utils.js:163-170 | the output length is the input length plus the number of escaped characters |
| Escaping.RegSafeTextSpec | vite-plugin-vue-viai18n/utils.js:163-170 | length as above; for text without `\`, `{` or `}` the escaped text read as a regular expression denotes exactly the input |
| Escaping.RegSafeTextBackslash | vite-plugin-vue-viai18n/utils.js:163-170 | a text holding backslash + `n` is left unchanged and read as a regex denotes a newline, not the text (Finding 2) |
| Escaping.SafeEscapeDenotes | vite-plugin-vue-viai18n/utils.js:163-170 | the corrected escape, which also escapes `\`, `{` and `}`, denotes its input for every text |
| Escaping.SafeEscapeAgrees | vite-plugin-vue-viai18n/utils.js:163-170 | the corrected escape equals `regSafeText` on every text without `\`, `{` or `}` |
| Regions.RemoveComments | vite-plugin-vue-viai18n/utils.js:384-388 | a text with no complete `<!-- … -->` is returned as is; the result is never longer |
| Regions.CommentRemoved | vite-plugin-vue-viai18n/utils.js:385 | the first comment is dropped with the shortest body (lazy `*?`), and the text before it is kept |
| Regions.MatchTemplate | vite-plugin-vue-viai18n/utils.js:369-372 | a match is a substring that starts with `<template>` and ends with `</template>`; there is none exactly when no such pair occurs in order |
| Regions.TemplateSpan | vite-plugin-vue-viai18n/utils.js:370 | the match runs from the first `<template>` to the last `</template>` after it (greedy `*`) |
| Regions.ScriptSpan | vite-plugin-vue-viai18n/utils.js:380 | the head ends at the first `>` after the first `<script`; the tail starts at the last `</script>` after it; none exactly when no such triple exists |
| Regions.MatchScript | vite-plugin-vue-viai18n/utils.js:379-382 | the three groups head, body and tail concatenate to the source; there is a match exactly when the span exists |
| Regions.IsComposableIff | vite-plugin-vue-viai18n/utils.js:381 | the composable test holds exactly when some `<script` is followed by `setup` with no `>` in between |
| Regions.MatchDefaultObject | vite-plugin-vue-viai18n/utils.js:374-377 | a match is the default export found at its own index, and runs from there to the end of the text |
| Regions.MatchDefaultObjectLeftmost | vite-plugin-vue-viai18n/utils.js:374-377 | the match found is the leftmost one; there is none exactly when no position matches |
| Regions.DefaultExportSplits | vite-plugin-vue-viai18n/utils.js:375 | a match splits into keyword, blanks, keyword, blanks and the object text of group 2 |
| Regions.DefaultExportComplete | vite-plugin-vue-viai18n/utils.js:375 | conversely, every such split at a position is a match there |
| Patterns.FirstMatchLeftmost | vite-plugin-vue-viai18n/processI18n.js:68 | a non-global regex replaces its leftmost match; there is no match exactly when no position matches |
| Patterns.ApplyRewrite | vite-plugin-vue-viai18n/processI18n.js:68 | without `g`, no match leaves the text unchanged, and a match is replaced by newText taken literally |
| Patterns.GlobalRewriteIsSplitJoin | vite-plugin-vue-viai18n/processI18n.js:68 | a global literal rewrite equals splitting at every occurrence and joining with newText |
| Patterns.JoinSplitFrom | vite-plugin-vue-viai18n/processI18n.js:68 | joining the pieces split at a separator with that separator gives back the text |
| Substitution.AsWrittenAgreesWithoutPatterns | vite-plugin-vue-viai18n/processI18n.js:68 | with no `$` pattern in newText, the string replacement as written equals the literal one |
| Substitution.PlainPrefix | vite-plugin-vue-viai18n/processI18n.js:68 | text with no `$` pattern and no trailing `$` is copied by the expansion, whatever follows it |
| Substitution.JoinExpansion | vite-plugin-vue-viai18n/processI18n.js:68 | plain pieces joined by `$&` expand to the same pieces joined by the matched text |
| Substitution.MatchedTextPasted | vite-plugin-vue-viai18n/processI18n.js:68 | for a global literal replacer whose newText is plain pieces joined by `$&`, the replacement as written gives the pieces joined by the matched literal; the literal rewrite gives newText (Finding 1) |
| Substitution.DollarAmpersandCounterexample | vite-plugin-vue-viai18n/processI18n.js:68 | in the `<script setup>` of `Header.vue` the literal `"中$&"` gets newText `$VHeader("中$&","中$&")`, and the replacement as written outputs `$VHeader("中"中$&"","中"中$&"")` instead |
| Replacers.StringReplacer | vite-plugin-vue-viai18n/utils.js:25-33 | succeeds exactly when the quotes can be removed; gives a global literal pattern on the token, the origin trimText(removeQuotes(value)), its key, and newText `T("hash","origin")` |
| Replacers.SplitTemplate | vite-plugin-vue-viai18n/utils.js:37 | a split is the first character `` ` `` or `}`, a body, and the last closer `${` or `` ` ``; there is none exactly when no closer follows the opener |
| Replacers.TemplateReplacer | vite-plugin-vue-viai18n/utils.js:38-42 | a template token gives a non-global literal pattern on the token, the origin trimText(body) and its key, and newText the opening delimiter, `${T("hash","origin")}` and the closer |
| Replacers.TokenReplacers | vite-plugin-vue-viai18n/utils.js:21-50 | a token that is not a string or template, or does not match, gives nothing; a string already seen gives nothing |
| Replacers.TokenReplacersOk | vite-plugin-vue-viai18n/utils.js:37-47 | a matching template token that cannot be split throws `SyntaxIncompatible` |
| Replacers.ScriptReplacersFrom | vite-plugin-vue-viai18n/utils.js:17-53 | no matching token gives no replacer; all are script replacers; global patterns are distinct matching strings not yet seen |
| Replacers.ScriptReplacersComplete | vite-plugin-vue-viai18n/utils.js:17-53 | the pass succeeds exactly when every matching token is acceptable, and then every matching string gets a replacer |
| Replacers.ScriptReplacers | vite-plugin-vue-viai18n/utils.js:17-53 | each distinct matching string value gets exactly one replacer; the global replacers are exactly the String replacers of the first occurrences of the matching string values, and the first-occurrence replacers exactly the Template replacers of the matching Template tokens, both in token order, with no other kind; the pass fails exactly when a matching token is unacceptable |
| Replacers.ScriptReplacersShape | vite-plugin-vue-viai18n/utils.js:21-51 | from any point of the loop: the global replacers are exactly the String replacers of the first occurrences of the matching string values not yet seen, the first-occurrence replacers exactly the Template replacers of the matching Template tokens, both in token order, and there is no other kind |
| Replacers.TokenShape | vite-plugin-vue-viai18n/utils.js:22-50 | one token yields its String replacer (a first, matching, quoted String token), its Template replacer (a matching, splittable Template token), or nothing |
| Replacers.TemplateTokenFails | vite-plugin-vue-viai18n/utils.js:44-47 | the first bad template token aborts the whole pass with `SyntaxIncompatible` |
| Replacers.QuoteSplitJoins | vite-plugin-vue-viai18n/utils.js:62 | splitting by quoted sub-spans loses nothing: the pieces join back to the text |
| Replacers.QuoteSplitQuoted | vite-plugin-vue-viai18n/utils.js:62 | every captured piece is a shortest quoted span, `"…"` or `'…'` |
| Replacers.QuoteSplitSplits | vite-plugin-vue-viai18n/utils.js:62-63 | the split has more than one piece exactly when the text holds a quoted span |
| Replacers.BraceSplitJoins | vite-plugin-vue-viai18n/utils.js:111 | splitting by `{{…}}` loses nothing |
| Replacers.BraceSplitBraced | vite-plugin-vue-viai18n/utils.js:111 | every captured piece is a shortest `{{…}}` span |
| Replacers.BraceSplitSplits | vite-plugin-vue-viai18n/utils.js:108-111 | the text splits exactly when it holds `{{` followed later by `}}` |
| Replacers.QuotedTokens | vite-plugin-vue-viai18n/utils.js:65-83 | one entry per matching non-empty piece; a matching piece without quotes throws `QuotesMissing` |
| Replacers.QuotedTokensSpec | vite-plugin-vue-viai18n/utils.js:64-83 | on success newText is the pieces joined, each matching non-empty piece replaced by `T('h')` when it starts with `'` and `T("h")` otherwise, h the key of trimText(removeQuotes(piece)); the entries are those origins with their keys, in piece order |
| Replacers.QuotedTokensOk | vite-plugin-vue-viai18n/utils.js:65-83 | the pass succeeds exactly when every matching non-empty piece has removable quotes |
| Replacers.QuotedTokensUnmatched | vite-plugin-vue-viai18n/utils.js:80-82 | with no matching piece, newText is the text copied unchanged and there are no entries |
| Replacers.AttributeQuotedRewrite | vite-plugin-vue-viai18n/utils.js:61-84 | a matching value with quoted spans fails exactly when a matching span lacks its quotes; otherwise it gives the entries of the matching spans in order, then `{oldText: text, newText}` with the rendered newText of QuotedTokensSpec |
| Replacers.AttributeReplacers | vite-plugin-vue-viai18n/utils.js:58-93 | a non-matching value gives nothing; a matching value with no quoted span gives one `name=…` regex bound to `:name='T("h")'`; with quoted spans, one entry per matching span, then `{oldText: text, newText}` |
| Replacers.ExpressionPiece | vite-plugin-vue-viai18n/utils.js:113-150 | an empty or non-matching piece is copied; a matching plain-text piece becomes `{{T("h")}}` with origin trimText(piece) |
| Replacers.ExpressionPiecesUnmatched | vite-plugin-vue-viai18n/utils.js:147-149 | with no matching piece, the pieces are copied unchanged |
| Replacers.TextNodeReplacer | vite-plugin-vue-viai18n/utils.js:152-158 | a text without `{{…}}` gives a `>\s*text\s*<` pattern with newText `>{{T("h")}}<` and origin trimText(text) |
| Replacers.ExpressionPiecesSpec | vite-plugin-vue-viai18n/utils.js:111-150 | on success newText is the `{{…}}`-split pieces joined, a matching plain piece as `{{T("h")}}` on its trimmed text, a matching braced piece with its quoted tokens rendered as in QuotedTokensSpec, others copied; the entries follow piece order, one per matching plain piece and one per matching quoted token of a matching braced piece |
| Replacers.ExpressionSplitRewrite | vite-plugin-vue-viai18n/utils.js:107-151 | a matching text with an expression gives those entries in order, then `{oldText: text, newText}` with that newText; the replacer count is the entry count plus one |
| Replacers.ExpressionReplacers | vite-plugin-vue-viai18n/utils.js:103-161 | a non-matching text gives nothing; a text without `{{…}}` gives the text-node replacer; otherwise the entries come first and `{oldText: text, newText}` last; none is a script replacer |
| Replacers.ExpressionCopiesUnmatched | vite-plugin-vue-viai18n/utils.js:108-151 | when no piece matches, the single replacer rewrites the text to itself |
| Replacers.EventsReplacers | vite-plugin-vue-viai18n/utils.js:55-101 | events that do not match give nothing; errors are `QuotesMissing` only |
| Replacers.TemplateReplacers | vite-plugin-vue-viai18n/utils.js:55-101 | no template replacer is a script replacer; a template whose events all fail to match gives none |
| Inject.InsertString | vite-plugin-vue-viai18n/utils.js:267-281 | both inserted texts carry `/* viai18n-disable */` right after their leading newline and indent |
| Inject.FunctionText | vite-plugin-vue-viai18n/utils.js:336-346 | a body found is balanced and sits between the header and a `}` at the first occurrence of the header |
| Inject.FindFunctionText | vite-plugin-vue-viai18n/utils.js:336-346 | the depth-counting loop returns the same body as the scan, which is brace-balanced |
| Inject.FunctionTextOfBalanced | vite-plugin-vue-viai18n/utils.js:336-346 | conversely, a balanced body followed by `}` after the first header is exactly what the scan returns |
| Inject.ScanBody | vite-plugin-vue-viai18n/utils.js:339-345 | the scan stops at the first `}` taking the depth below zero; if it never stops, no prefix went below zero |
| Inject.SetupHeaderNone | vite-plugin-vue-viai18n/utils.js:332-334 | there is no setup header exactly when `setup`, blanks, `(`, no `)`, `)`, blanks, `{` occurs nowhere |
| Inject.RewriteSetup | vite-plugin-vue-viai18n/utils.js:332-354 | a setup body holding Chinese text gets the accessor in front and every `this.` removed; the result is left as it is when there is no setup header, when the header's body never closes (the text tested is then "undefined"), or when the body holds no Chinese |
| Inject.InsertTransMethod | vite-plugin-vue-viai18n/utils.js:305-360 | no script: a `<script setup>` block is appended; composable script: the texts go right after the opening tag; options script without `export default`: unchanged |
| Inject.InsertTransMethodExport | vite-plugin-vue-viai18n/utils.js:314-331 | an options script with `export default` and no setup header has its export replaced by the inserted text and the proxied object |
| Inject.InsertTransMethodMarks | vite-plugin-vue-viai18n/utils.js:305-360 | the output carries the disable marker exactly when there is no script, the script is composable, the script body has `export default`, or the source already carried it |
| Inject.InsertComposableTransMethod | vite-plugin-vue-viai18n/utils.js:362-367 | the source is a suffix of the result, the inserted text a prefix, and the marker stays at its place |
| Catalogs.SortedKeysSpec | vite-plugin-vue-viai18n/utils.js:209-213 | `Object.keys(…).sort()` holds exactly the keys, in strictly increasing order |
| Catalogs.SortedKeysEqual | vite-plugin-vue-viai18n/utils.js:214 | two sorted key lists are equal exactly when the key sets are |
| Catalogs.MergeSpec | vite-plugin-vue-viai18n/utils.js:219-232 | an old-only language is kept verbatim; a language in the new data keeps the new key set; a key in both keeps the old value; a new-only key takes the new value |
| Catalogs.SyncJsonFile | vite-plugin-vue-viai18n/utils.js:204-238 | whatever is written holds every language of the new data (SyncSkipIff, SyncFresh and SyncWritesMerge give the whole outcome) |
| Catalogs.SyncSkipIff | vite-plugin-vue-viai18n/utils.js:209-217 | nothing is written exactly when an old catalog exists with the same default-language keys and the same languages; other languages' keys are not compared |
| Catalogs.SyncFresh | vite-plugin-vue-viai18n/utils.js:205-209 | with no readable old catalog, or the default language missing from either, the new data is written |
| Catalogs.SyncWritesMerge | vite-plugin-vue-viai18n/utils.js:219-237 | otherwise, unless skipped, the merge is written |
| Catalogs.ObjectKeysSpec | vite-plugin-vue-viai18n/utils.js:244 | `Object.keys` of a parsed object holds each property once, exactly those of the object |
| Catalogs.SortFieldsSpec | vite-plugin-vue-viai18n/utils.js:255-265 | the ordered fields have increasing names and read back as the same map |
| Catalogs.SortObjectByKeySorted | vite-plugin-vue-viai18n/utils.js:255-265 | the written catalog has its languages, and the keys of each language, in increasing order |
| Catalogs.SortObjectByKeyParses | vite-plugin-vue-viai18n/utils.js:251-265 | parsing the ordered document gives back the catalog |
| Catalogs.SortObjectByKeyEntry | vite-plugin-vue-viai18n/utils.js:257-262 | each language of the ordered document holds that language's messages, themselves ordered |
| Catalogs.VisibleSpec | vite-plugin-vue-viai18n/utils.js:243 | the visible codes are exactly the keys of the languages not hidden |
| Catalogs.VisibleAppend | vite-plugin-vue-viai18n/utils.js:243 | the filter keeps the configured order: the codes of two lists one after the other are those of the first, then those of the second |
| Catalogs.CompressMessages | vite-plugin-vue-viai18n/utils.js:240-249 | a table has one row more than there are visible languages |
| Catalogs.CompressShape | vite-plugin-vue-viai18n/utils.js:244-247 | row 0 is the key list of the first visible language; row i has one cell per key then the language code |
| Catalogs.CompressFails | vite-plugin-vue-viai18n/utils.js:244-246 | the table is refused exactly when the first visible language is missing, or there are keys and some visible language is missing |
| Catalogs.CompressRoundTrip | vite-plugin-vue-viai18n/utils.js:240-249 | the decoder built into the inserted text (line 279) gives each visible language every key of row 0 with that language's message, or null |
| Pipeline.AccessorName | vite-plugin-vue-viai18n/processI18n.js:4-5 | `$V` followed by the ASCII letters of the file name, or `$Vtext` when it has none |
| Pipeline.LettersSpec | vite-plugin-vue-viai18n/processI18n.js:5 | removing non-letters keeps a name of letters as it is, empties exactly the names with no letter, and is idempotent |
| Pipeline.CatalogTarget | vite-plugin-vue-viai18n/processI18n.js:7-11 | an id is accepted exactly when it ends in `.vue` or `.js`, and is JavaScript exactly when it ends in `.js`; otherwise `UnsupportedId` |
| Pipeline.CatalogTargetOneLine | vite-plugin-vue-viai18n/processI18n.js:7-8 | for a one-line id, the path is the id with its extension replaced by `.messages.json` |
| Pipeline.LineStart | vite-plugin-vue-viai18n/processI18n.js:7 | `.` cannot cross a line terminator, so the path match starts after the last one |
| Pipeline.SplitVue | vite-plugin-vue-viai18n/processI18n.js:17-42 | the layout's indices fit its parts; there is a template exactly when there is a template index; the parts join back to the source |
| Pipeline.SplitVueRegions | vite-plugin-vue-viai18n/processI18n.js:19-42 | with a script body the parts are the three groups and index 1 is the script; the tail's template wins over the head's; without one the whole source is the only part and holds the template |
| Pipeline.Dispatch | vite-plugin-vue-viai18n/processI18n.js:64-69 | the number of parts is kept (DispatchRegions and DispatchOne say which part changes) |
| Pipeline.DispatchRegions | vite-plugin-vue-viai18n/processI18n.js:64-69 | the script part gets the script rewrites and the template part the others, each in order; a replacer without oldText is skipped; other parts are unchanged |
| Pipeline.DispatchOne | vite-plugin-vue-viai18n/processI18n.js:64-69 | with one index, that part gets every rewrite in order and the rest are unchanged |
| Pipeline.EntriesSpec | vite-plugin-vue-viai18n/processI18n.js:70-75 | the keys are the hashes of the replacers carrying one; each maps to the origin of the last replacer with that hash |
| Pipeline.CatalogData | vite-plugin-vue-viai18n/processI18n.js:60-75 | every language gets the same key → origin map |
| Pipeline.Prepare | vite-plugin-vue-viai18n/processI18n.js:12-56 | a module's layout is the whole source as the script part; a `.vue` layout fits its parts |
| Pipeline.ProcessI18n | vite-plugin-vue-viai18n/processI18n.js:3-87 | a catalog write is reported only when `updateJson` is set |
| Pipeline.ProcessUnsupported | vite-plugin-vue-viai18n/processI18n.js:7-8 | an id ending in neither `.vue` nor `.js` fails with `UnsupportedId` |
| Pipeline.ProcessUnchanged | vite-plugin-vue-viai18n/processI18n.js:58-86 | with no replacers, the comment-free source is returned with no catalog write |
| Pipeline.ProcessJsNoMatch | vite-plugin-vue-viai18n/processI18n.js:12-86 | a module with no matching token is returned comment-free and unchanged |
| Pipeline.ProcessCatalog | vite-plugin-vue-viai18n/processI18n.js:58-78 | a catalog is synchronised exactly when `updateJson` is set and there are replacers, at the derived path, with `languages[0]` as default and every language mapped to the entries |
| Pipeline.ProcessJs | vite-plugin-vue-viai18n/processI18n.js:12-84 | a module with replacers becomes the marked import, the composable lookup, and the source rewritten by every replacer in order |
| Pipeline.RewrittenVue | vite-plugin-vue-viai18n/processI18n.js:19-69 | with the template after the script, the head is kept, the body gets the script rewrites and the tail the template rewrites |

## Left out

- File-system access: reading and writing `<file>.messages.json` (`createJsonIfNotExist`, `fileExist`, the reads in `syncJsonFile` and `compressMessages`, `writeDataAsJson`). The old catalog is an `Option<Catalog>` input; the write is the returned `Sync` value.
- `JSON.parse` and `JSON.stringify` text formats. The ordered document `SortObjectByKey` returns stands for the written text, and `Parse` for reading it back. The old catalog is taken to be a two-level object of strings.
- esprima, htmlparser2 and blueimp-md5 are foreign libraries, so they are parameters. The markup events given are the attribute and text callbacks in document order.
- General regular expressions. The user's regex is a predicate on whole strings. The patterns replacers build are modelled by what they match: a literal, an attribute binding `name\s*=\s*['"]text['"]`, or a text node `>\s*text\s*<`. For `regSafeText` this assumes the escaped text denotes the text itself, which `Escaping.RegSafeTextSpec` proves when the text has no `\`, `{` or `}`.
- Patterns.AttributeAt: the attribute name is matched as literal text, but utils.js:88 puts it into the regex unescaped. A name holding regex syntax (`[`, `]`, `.`, `(`, `)`, `*`, `+`, `?`, `^`, `$`, `|`) is read as a pattern there: `:[key]` never matches itself, so the source leaves such an attribute as written while still recording its entry, and the model rewrites it. The model assumes, as for `regSafeText`, that the name denotes only itself.
- Escaping.Denotes: accepts only the escapes the escaped output can contain, and declines a lone `]` or `}`. That is enough for the results about `regSafeText` but is not a full regex parser.
- Sort order is by code point. It agrees with JavaScript's UTF-16 order on texts within the Basic Multilingual Plane. Integer-like property names, which JavaScript enumerates first, are not given that order.
- The text of the generated runtime code (`getTransMethodString`, `getComposableTransMethodString`) is an input `lookups`: emitted text, not logic the plugin runs.
- `languages[0]` of an empty list is the string `undefined`, as JavaScript prints it into the generated code. A cell read past the end of a row by the decoder is `undefined` in JavaScript and null here.
- The plugin glue in `index.js` is not part of this model: Vite registration, the file filter, the disable-marker check, the first match test and the `ssr`/`NODE_ENV` flag. The flag arrives as the `updateJson` parameter.
- Console logging before the template-literal error is left out.
- Text.GetTextKey: when the eighth UTF-16 unit of the stripped text is the first half of a surrogate pair, `slice(0, 8)` keeps that lone half. A Dafny string cannot hold a lone surrogate, so the modelled key stops before the pair, at 7 units.
- Text.Stem: without a `.`, `slice(0, -1)` drops one UTF-16 unit, which is half of a final character outside the Basic Multilingual Plane. The model drops the whole character.
- Inject.InsertTransMethodMarks: requires that an options-API script has no `setup(...){` header. A setup-body rewrite replaces the first occurrence of the body text, which is not proved to keep the marker.

## Findings

| source | as written | input that shows it | evidently intended | confidence | as-written member | corrected member |
|---|---|---|---|---|---|---|
| vite-plugin-vue-viai18n/processI18n.js:68 | `replace(replacer.oldText, replacer.newText)` passes newText as a string, so `$&`, `` $` ``, `$'` and `$n` in the extracted text are expanded | in the `<script setup>` of `Header.vue` the string literal `"中$&"` gets newText `$VHeader("中$&","中$&")`; both `$&` expand to the literal, so the output is `$VHeader("中"中$&"","中"中$&"")` | newText inserted literally, as the authors do elsewhere with function replacers (utils.js:311, 331, 352) | high, not executed | Substitution.DollarAmpersandCounterexample | Patterns.ApplyRewrite |
| vite-plugin-vue-viai18n/utils.js:163-170 | `regSafeText` escapes eleven characters but not `\`, `{` or `}` | the script string token `"中\n"` (backslash, `n`) gives the regex `/"中\n"/g`, which matches a newline, not the backslash in the source, so the text is never replaced | every character the regex syntax gives a meaning escaped, so the pattern denotes the text | high, not executed | Escaping.RegSafeTextBackslash | Escaping.SafeEscapeDenotes |

The rest of the model uses the corrected behaviour. Rewrites carry a literal pattern and apply newText literally: `Patterns.ApplyRewrite` and `Patterns.GlobalRewriteIsSplitJoin`. `Escaping.SafeEscapeAgrees` shows the corrected escape changes nothing on texts free of `\`, `{` and `}`.
