# KimchiAPI router and request helpers in Dafny

This project models the request-routing core of KimchiAPI, a PHP framework
for JSON APIs, and proves properties of the model. It covers:

- **The router** (`Router`). It stores routes in order and indexes named
  routes. It merges named match types into the built-in table. It matches a
  request URL and method against the routes, compiles placeholder patterns
  such as `/users/[i:id]` into PCRE regexes, and rebuilds the URL of a named
  route from parameter values (reverse routing).
- **The request parameter store** (`Classes/Request`). It holds the
  parameters the router extracted. It also looks a parameter up in GET, POST
  and that store, and merges all three.
- **The request data object** (`Objects/Request`). It has a verbose array
  form keyed by field names, a compact form keyed by the integers 1 to 5, and
  a decoder that reads either form.
- **Two string helpers** of `Converter`: `truncateString` and
  `functionNameSafe`.

Modules, in dependency order:

| module | file | what it holds |
|---|---|---|
| `Wrappers` | wrappers.dfy | `Option` and `Result` |
| `PhpString` | php_string.dfy | substr, strpos, stripos and str_replace, with PHP 8 edge cases |
| `PhpArray` | php_array.dfy | ordered PHP arrays with distinct keys, key normalisation ("5" becomes 5), and array_merge, which renumbers integer keys and overrides string keys |
| `Placeholders` | placeholders.dfy | the placeholder grammar `(/\|.\|)[type(:name)](?)` and how preg_match_all scans for it; templates (literal text interleaved with blocks) and their rendering |
| `Substitution` | substitution.dfy | when str_replace of one block's text leaves the rest of a route alone |
| `RouteTable` | route_table.dfy | map, addRoutes, setBasePath, addMatchTypes and the constructor |
| `ReverseRouter` | reverse_router.dfy | generate |
| `RouteCompiler` | route_compiler.dfy | compileRoute |
| `Matcher` | matcher.dfy | match |
| `RequestParams` | request_params.dfy | getParameter, getParameters and the dynamic-parameter store |
| `RequestObject` | request_object.dfy | toArray and fromArray |
| `Converter` | converter.dfy | truncateString and functionNameSafe |

Modelling choices that affect what the theorems mean:

- **Regex engine.** A PCRE match is a parameter, `Engine`. It maps a regex
  and a subject to the capture groups, or to None. The two regex-driven
  loops, generate and compileRoute, do not call it. Their
  `preg_match_all` over a fixed grammar is modelled exactly by
  `Placeholders.Scan`:
  - the runs are possessive;
  - the `?` marker is greedy;
  - matches do not overlap and are found leftmost first.
- **str_replace replaces every occurrence of a block's text**, not only the
  occurrence that was scanned. So the "each block is replaced in place"
  theorems need three hypotheses:
  - the blocks are pairwise distinct (`DistinctSlots`);
  - the text already produced cannot be mistaken for a later block (`Inert`);
  - for compilation, the fragments cannot be mistaken for later blocks
    either (`FragmentsInert`).

  `RouteCompiler.NamedFragmentsInert` discharges the last hypothesis for
  routes whose every block has a name, and `DefaultTypesClosed` shows that
  the built-in types meet its side condition. Outside these hypotheses the
  source's behaviour is modelled but not characterised. For example, in the
  route `[i][0-9]` the first fragment contains the text `[0-9]`, which the
  second pass then rewrites as well.
- **The base path is cut by length.** match() removes as many characters as
  the base path has, without comparing them (`Matcher.RequestPathLength`).
- **The method check is a substring test.** A method list is compared with
  a case-insensitive substring test, so `GET` also matches a route
  registered for `TARGET`.
- **Route names.** PHP treats `""` and `"0"` as false, so such names are
  never indexed. The index is a `map<string, string>`. PHP turns an
  integer-spelling name into an integer key, but distinct names still give
  distinct keys, so lookups are unaffected.
- **getParameter and getParameters disagree on precedence.** getParameter
  prefers GET, then POST, then the store. getParameters is an array_merge,
  so the store overrides POST and POST overrides GET.
  `RequestParams.PrecedenceDiffers` gives an input on which the two
  disagree.
- **The third guard of getParameter always holds.** The guard is
  `isset(...) !== null` (Classes/Request.php line 93), so the store is read
  directly. A missing key then reads as null, exactly as the evident
  `isset` test would give. The result is therefore the same as the intended
  one, and this is not listed as a finding. PHP 8 also emits an "Undefined
  array key" warning for that read (line 94), which the `isset` version would
  not. The model does not represent the warning, because warnings are
  diagnostics and not results.
- **Array keys.** `PhpArray.Array` requires distinct keys but also admits a
  `Str` key that spells a canonical integer, such as `Str("5")`, which PHP
  never stores because it turns such a key into an integer. These extra
  inputs are allowed on purpose: every theorem still covers all real PHP
  arrays, and keys that are built from strings go through `NormalizeKey`.

## Model

| member | source | states |
|---|---|---|
| RouteTable.MapRoute | src/KimchiAPI/Classes/Router.php:119-133 | the route is appended with the root path in front, before any check; the call raises exactly when the name is truthy and already indexed, and then the index is unchanged; otherwise a truthy name is indexed to the stored pattern and a falsy one changes nothing |
| RouteTable.MapIndexed | src/KimchiAPI/Classes/Router.php:119-133 | map keeps the name index in step with the route list whether or not it raises: every indexed name is truthy and points at the pattern of the first route with that name |
| RouteTable.AddRoutesFails | src/KimchiAPI/Classes/Router.php:73-85 | addRoutes raises exactly when some definition reuses a name that is already indexed or was given to an earlier definition |
| RouteTable.AddRoutesSucceeds | src/KimchiAPI/Classes/Router.php:73-85 | without an exception every definition is appended in order with its root path, every name is indexed, and the base path and match types are untouched |
| RouteTable.AddRoutesStops | src/KimchiAPI/Classes/Router.php:73-85 | on an exception the error names the first clashing definition, none before it clashes, and the routes up to and including it have been appended |
| RouteTable.AddRoutesIndexed | src/KimchiAPI/Classes/Router.php:73-85 | a sequence of maps preserves the agreement between the index and the route list |
| RouteTable.SetBasePath | src/KimchiAPI/Classes/Router.php:92-95 | only the base path changes, and the index stays consistent |
| RouteTable.AddMatchTypes | src/KimchiAPI/Classes/Router.php:102-105 | only the match types change, and their integer keys are renumbered 0, 1, 2, ... |
| RouteTable.AddMatchTypesNamed | src/KimchiAPI/Classes/Router.php:102-105 | a type named by a string is overridden by the new table when it names it, and kept otherwise |
| RouteTable.AddMatchTypesNumbered | src/KimchiAPI/Classes/Router.php:102-105 | integer-keyed types are never overridden: the old ones, then the new ones, all kept in order and numbered from 0 |
| RouteTable.AddRoutesFromEmpty | src/KimchiAPI/Classes/Router.php:45-47 | from a fresh router, addRoutes raises exactly on a name clash among the definitions, and otherwise holds exactly the definitions with the built-in types |
| RouteTable.NewRouter | src/KimchiAPI/Classes/Router.php:45-50 | the constructor fails exactly on a name clash; on success the router holds the definitions in order with a consistent index, the given base path and the built-in types merged with the given ones |
| Placeholders.ScanAt | src/KimchiAPI/Classes/Router.php:162 | a block found at an index is a block the grammar allows, and its text lies at that index |
| Placeholders.ScanAtLongest | src/KimchiAPI/Classes/Router.php:162 | whenever some valid block's text lies at an index, a block is found there, and it is at least as long as any such block |
| Placeholders.ScanFound | src/KimchiAPI/Classes/Router.php:162 | each block preg_match_all reports is the block found at its start |
| Placeholders.ScanComplete | src/KimchiAPI/Classes/Router.php:162 | no block is skipped: every index where a block starts lies under a reported block |
| Placeholders.ScanOrdered | src/KimchiAPI/Classes/Router.php:162 | blocks are reported left to right without overlap, each is the leftmost one after the previous block ends, so no block starts in the gap before it |
| Placeholders.PatternOfTemplate | src/KimchiAPI/Classes/Router.php:162 | scanning a rendered well-formed template finds exactly its blocks, in order |
| ReverseRouter.Generate | src/KimchiAPI/Classes/Router.php:146-195 | generate raises RouteNotFound exactly when the name is not indexed |
| ReverseRouter.SubstituteStep | src/KimchiAPI/Classes/Router.php:170-189 | one pass of the loop puts the block's piece in place of its text and leaves the text before and after it untouched: the value after the separator, nothing for a missing optional block other than the first, otherwise the separator alone |
| ReverseRouter.SubstituteTemplate | src/KimchiAPI/Classes/Router.php:165-190 | for distinct clean blocks and values without '[', the loop replaces every block in place |
| ReverseRouter.GenerateTemplate | src/KimchiAPI/Classes/Router.php:146-195 | the URL of a template route is the base path followed by the template with every block replaced in place |
| ReverseRouter.GeneratePlain | src/KimchiAPI/Classes/Router.php:156-194 | a pattern without '[' comes back unchanged after the base path |
| ReverseRouter.GenerateUsersRoute | src/KimchiAPI/Classes/Router.php:146-195 | "/users/[i:id]" under "/api" gives "/api/users/5" for id 5, and "/api/users/" without a value |
| RouteCompiler.ResolveType | src/KimchiAPI/Classes/Router.php:307-310 | a type named in the table becomes its entry there, and any other type is used as a regex of its own |
| RouteCompiler.Compile | src/KimchiAPI/Classes/Router.php:296-335 | the compiled regex is wrapped in the anchored, delimited, duplicate-names and UTF-8 form |
| RouteCompiler.RewriteStep | src/KimchiAPI/Classes/Router.php:320-330 | one pass of the loop puts the block's fragment in place of its text and leaves the rest untouched |
| RouteCompiler.RewriteTemplate | src/KimchiAPI/Classes/Router.php:303-331 | for distinct clean blocks whose fragments are inert, the loop replaces every block by its fragment in place |
| RouteCompiler.CompileTemplate | src/KimchiAPI/Classes/Router.php:296-335 | the regex of such a template route is the template with its fragments in place, between the anchors |
| RouteCompiler.CompilePlain | src/KimchiAPI/Classes/Router.php:296-335 | a route without '[' is its own regex between the anchors |
| RouteCompiler.FragmentClosed | src/KimchiAPI/Classes/Router.php:320-328 | with closed match types, a fragment is closed: each '[' in it is closed by a ']' before any ':' and before its end |
| RouteCompiler.NamedFragmentsInert | src/KimchiAPI/Classes/Router.php:320-330 | when every block is named and the types are closed, no fragment can be taken for a block's text, so compilation is in place |
| RouteCompiler.DefaultTypesClosed | src/KimchiAPI/Classes/Router.php:28-35 | the six built-in match types are closed regexes |
| RouteCompiler.CompileUsersRoute | src/KimchiAPI/Classes/Router.php:296-335 | "/users/[i:id]" compiles to the regex whose named group id matches digits after the '/' |
| Matcher.RequestPath | src/KimchiAPI/Classes/Router.php:216-224 | the path matched holds no '?', is a prefix of the URL after the base-path length, is all of it when there is no query, and is empty when the base path is as long as the URL |
| Matcher.RequestPathOf | src/KimchiAPI/Classes/Router.php:216-224 | base path, then a path, then a query string gives back exactly that path |
| Matcher.RequestPathLength | src/KimchiAPI/Classes/Router.php:217 | two base paths of equal length cut the same path from any URL |
| Matcher.FirstMatch | src/KimchiAPI/Classes/Router.php:232-287 | the route found is one that matches and no earlier one matches; when none is found no route matches |
| Matcher.StripNumeric | src/KimchiAPI/Classes/Router.php:271-277 | the numbered groups are dropped and the named groups stay, with their values and in their original order |
| Matcher.StripNumericFind | src/KimchiAPI/Classes/Router.php:271-277 | every named group reads the same before and after the numbered ones are dropped |
| Matcher.Match | src/KimchiAPI/Classes/Router.php:204-289 | match fails exactly when no route matches, and then the store is untouched; on success the store holds exactly the returned parameters, which are all named |
| Matcher.MatchedFirst | src/KimchiAPI/Classes/Router.php:232-286 | a successful match returns the target and name of the first matching route, and its named groups |
| Matcher.LiteralRouteIgnoresEngine | src/KimchiAPI/Classes/Router.php:241-256 | a route that is neither a regex nor a placeholder pattern never reaches the regex engine, and matches exactly when its method is allowed and it is "*" or equal to the path |
| Matcher.MethodFilter | src/KimchiAPI/Classes/Router.php:236-239 | a route whose method list does not contain the request method is passed over, whatever its pattern, '@' regexes included |
| Matcher.PrefixGuard | src/KimchiAPI/Classes/Router.php:257-266 | a placeholder route reaches the engine only when the path starts with the text before its first '[' |
| Matcher.TemplatePrefix | src/KimchiAPI/Classes/Router.php:252 | a template's first '[' is the one of its first block, so the text before it is its literal and separator |
| Matcher.TemplateRoute | src/KimchiAPI/Classes/Router.php:257-266 | a template route, after the prefix check, hands the engine its fragments in place between the anchors |
| RequestParams.Get | src/KimchiAPI/Classes/Request.php:59-65 | a key holding a non-null value reads as that value; a value read is there under its key; null is returned when the key is missing or null |
| RequestParams.DynamicParameters | src/KimchiAPI/Classes/Request.php:134-137 | an unset or null store reads as the empty array |
| RequestParams.SetDynamicParameters | src/KimchiAPI/Classes/Request.php:144-147 | after setting, the getter returns exactly the array set, or the empty array for null |
| RequestParams.DynamicParameter | src/KimchiAPI/Classes/Request.php:120-126 | a key holding a non-null value in the store reads as that value; a value read is there under its key; nothing is read from an unset store |
| RequestParams.Parameter | src/KimchiAPI/Classes/Request.php:84-97 | GET wins, then POST, then the store; the result is null exactly when none of the three holds a value |
| RequestParams.Parameters | src/KimchiAPI/Classes/Request.php:104-111 | the merged array has its integer keys renumbered 0, 1, 2, ... |
| RequestParams.ParametersStringKeys | src/KimchiAPI/Classes/Request.php:104-111 | a string key reads from the store if there, else from POST, else from GET |
| RequestParams.ParametersIntKeys | src/KimchiAPI/Classes/Request.php:104-111 | integer-keyed values are all kept, GET's then POST's then the store's, numbered from 0 |
| RequestParams.PrecedenceDiffers | src/KimchiAPI/Classes/Request.php:84-111 | a name set in both GET and the store is read from GET by getParameter and from the store by getParameters |
| RequestObject.ToArray | src/KimchiAPI/Objects/Request.php:50-70 | five entries, each field under its key, and exactly the five keys of the chosen form |
| RequestObject.ReadField | src/KimchiAPI/Objects/Request.php:82-85 | a set verbose key wins, else a set compact key, else the field keeps its value |
| RequestObject.FromArrayField | src/KimchiAPI/Objects/Request.php:78-107 | every field is read from its own pair of keys, starting from null |
| RequestObject.RoundTrip | src/KimchiAPI/Objects/Request.php:50-107 | decoding either form of an object gives back the object |
| RequestObject.NoKeysGiveBlank | src/KimchiAPI/Objects/Request.php:78-107 | with none of the ten keys set, every field is null |
| RequestObject.VerboseKeyWins | src/KimchiAPI/Objects/Request.php:82-105 | when both keys of a field are set, the verbose one decides |
| RequestObject.OtherKeysIgnored | src/KimchiAPI/Objects/Request.php:78-107 | two arrays that agree on the ten keys decode to the same object |
| Converter.TruncateString | src/KimchiAPI/Utilities/Converter.php:36-39 | a string no longer than the limit is unchanged; a longer one becomes a prefix of the input followed by "...", of length limit + 3 for a non-negative limit |
| Converter.CollapseRunsShape | src/KimchiAPI/Utilities/Converter.php:15 | the replacement leaves only word characters and dots, never lengthens the string and never empties a non-empty one |
| Converter.CollapseRunsKeepsNames | src/KimchiAPI/Utilities/Converter.php:15 | a string of word characters and dots is left unchanged |
| Converter.CollapseRunsRun | src/KimchiAPI/Utilities/Converter.php:15 | a non-empty run of other characters becomes exactly one underscore |
| Converter.CollapseRunsAppend | src/KimchiAPI/Utilities/Converter.php:15 | the replacement works piecewise at any cut that does not split a run |
| Converter.TrimUnderscores | src/KimchiAPI/Utilities/Converter.php:17-24 | exactly one leading '_' is removed when present, then exactly one trailing '_' of what remains; nothing else changes |
| Converter.FunctionNameSafe | src/KimchiAPI/Utilities/Converter.php:13-27 | the result holds only word characters and dots, is never longer than the input, and a name of word characters and dots that neither starts nor ends with '_' comes back unchanged |
| PhpArray.MergeIntoInts | src/KimchiAPI/Classes/Router.php:104 | array_merge keeps every integer-keyed value in order |
| PhpArray.MergeIntoStr | src/KimchiAPI/Classes/Router.php:104 | array_merge lets a later string key override an earlier one, and keeps string keys it does not name |
| PhpArray.RenumberedEntries | src/KimchiAPI/Classes/Router.php:104 | the integer keys of a merged array are exactly 0 to n-1, holding the integer-keyed values in order |

## Left out

- The `$_SERVER` defaults of match() (Router.php lines 211-214 and 227-230) are left out. The caller passes the URL and the method, because reading the environment is I/O.
- The superglobals `$_GET` and `$_POST`, getRequestMethod and getPostBody are left out. GET and POST become array parameters, because they are I/O.
- PCRE itself is left out. The '@' branch and the compiled regex go to the `Engine` parameter. Only the control flow around the engine, and the regex text handed to it, are modelled.
- preg_match returning false on a regex error is not distinguished from "no match", because both leave the loop going on.
- is_numeric on group keys is modelled as "the key is an integer". PCRE group names cannot start with a digit, so named groups always have string keys.
- The `Traversable` check in addRoutes (lines 76-79) is left out. The typed `array` parameter already rules it out.
- getRoutes and getBasePath are left out, because they only return a field.
- The route target is a type parameter, because the router never inspects it.
- Values in `Objects/Request` are `Null`, `Text` or `List`, because the object never inspects them beyond isset.
- Everything outside the four classes is left out: KimchiAPI.php, API.php, the response standards, the configuration objects, and the other Converter methods.
- ReverseRouter.GenerateTemplate only characterises routes whose blocks are pairwise distinct and clean, with a base path and values that hold no '['. Other routes are modelled by `Generate` but not described, because str_replace then rewrites text outside the block being replaced.
- RouteCompiler.CompileTemplate only characterises routes whose fragments are inert towards every block. `NamedFragmentsInert` covers routes whose blocks are all named. Other routes are modelled by `Compile` but not described, for the same reason.
- Matcher.TemplateRoute leaves the outcome to the regex engine, because matching is abstract.
- Converter.FunctionNameSafe treats `\w` as ASCII letters, digits and underscore, as PCRE does without the `u` flag. Locale-dependent letters are left out.
- Strings are sequences of bytes as `char`. Case folding in stripos is ASCII only, as in PHP 8.
- RequestParams.Get and RequestParams.Parameter: GET and POST values are only strings or null. In PHP a client can send an array value (`?id[]=1`). getGetParameter and getPostParameter (Classes/Request.php lines 35-41 and 59-65) are declared to return `?string`, so they then raise a TypeError, and getParameter raises with them. Array-valued entries and that TypeError are not modelled.
- Converter.FunctionNameSafe: on "" or on an input that collapses to "_", PHP 8 reads `$out[0]` or `$out[-1]` out of range (Converter.php lines 17 and 21). It emits an "Uninitialized string offset" warning and compares "" with "_". The model returns the same "" but does not model the warning, because warnings are diagnostics and not results.
- RouteTable.AddRoutes takes definitions as typed `Route` records. `call_user_func_array` at Router.php line 83 raises ArgumentCountError for a definition with fewer than three elements, and passes string-keyed definitions as named arguments. Both are left out because PHP's argument binding is outside the router's logic.
- ReverseRouter.Generate takes parameter values as strings. str_replace at Router.php line 178 also accepts integers and casts them to their decimal text. A caller passing `['id' => 5]` corresponds to passing "5" here. The cast itself is not modelled, because it is PHP's conversion and not the router's.
