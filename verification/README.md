# Extended-filters builder

This project is a Dafny model of `ExtendedFiltersBuilder`, the class of the OSF
PHP API that builds the value of the search endpoint's `extended_filters`
parameter. Each builder call appends one token to a text buffer and returns
the builder, so that calls can be chained. The tokens are:

- dataset tests: `dataset:` and the quoted dataset URI, percent-encoded once;
- type tests: `type:` and the quoted type URI, percent-encoded once; with
  inference, this is or-ed with the same test on `inferred_type` and
  parenthesized;
- attribute/value tests: the attribute, a `[uri]` marker when the value is a
  URI, `:`, and the value, with both sides percent-encoded twice. The value is
  backslash-escaped first unless it holds control characters and is not a
  URI;
- the operators `+AND+`, `+OR+` and `+NOT+`;
- the parentheses of a group.

The model has six modules, one file each:

| file | module | what it holds |
|---|---|---|
| `wrappers.dfy` | `Wrappers` | `Option`, used for PHP `null` and for failed parses |
| `php_strings.dfy` | `PhpStrings` | byte strings, byte counting, and PHP `str_replace` with an array of search strings and a replacement count (sequential passes, leftmost non-overlapping matches) |
| `url_codec.dfy` | `UrlCodec` | PHP `urlencode`, and `urldecode` as its reference inverse |
| `escaping.dfy` | `Escaping` | the private `escape` method, and the control-character test of the attribute/value filter |
| `filter_terms.dfy` | `FilterTerms` | each call as data (`Call`), its token (`Token`), the text of a call sequence (`Render`), a reader for attribute/value terms, and the properties of all of these |
| `builder.dfy` | `Builder` | the class `ExtendedFiltersBuilder`, whose methods append to the buffer in place |

The buffer is a field of the class. A ghost field records the calls made so
far. The invariant `Valid()` says that the buffer is `null` before the first
call, and after that holds `Render` of the calls made. Every builder method
keeps `Valid()`. It also states its new buffer as the old buffer, with `null`
read as the empty string, followed by the term function for its call.

## Model

Every row cites the one core source file, `StructuredDynamics/osf/php/api/ws/search/ExtendedFiltersBuilder.php`.

| member | source | states |
|---|---|---|
| Builder.ExtendedFiltersBuilder.constructor | StructuredDynamics/osf/php/api/ws/search/ExtendedFiltersBuilder.php:63 | A new builder has made no calls, its buffer is `null`, and the invariant holds. |
| Builder.ExtendedFiltersBuilder.GetExtendedFilters | StructuredDynamics/osf/php/api/ws/search/ExtendedFiltersBuilder.php:69-72 | Returns the buffer and changes nothing, so two reads in a row agree. The result is `null` exactly when no call was made; otherwise it is the rendering of all calls made. |
| Builder.ExtendedFiltersBuilder.DatasetFilter | StructuredDynamics/osf/php/api/ws/search/ExtendedFiltersBuilder.php:80-85 | Appends the dataset term to the buffer, records the call, keeps the invariant, and returns the same builder. |
| Builder.ExtendedFiltersBuilder.TypeFilter | StructuredDynamics/osf/php/api/ws/search/ExtendedFiltersBuilder.php:94-107 | Appends the type term, with or without the inference disjunction as the flag says (inference off by default). Records the call, keeps the invariant, and returns the same builder. |
| Builder.ExtendedFiltersBuilder.AttributeValueFilter | StructuredDynamics/osf/php/api/ws/search/ExtendedFiltersBuilder.php:118-142 | Runs the source's own test: the `str_replace` count over the control strings, raw if the count is positive and the value is not a URI, escaped otherwise. Appends the resulting attribute/value term, which is proved equal to the term of the call. Keeps the invariant and returns the same builder. The value defaults to `*` and the URI flag to false. |
| Builder.ExtendedFiltersBuilder.And | StructuredDynamics/osf/php/api/ws/search/ExtendedFiltersBuilder.php:147-152 | Appends exactly `+AND+`, records the call, keeps the invariant, and returns the same builder. |
| Builder.ExtendedFiltersBuilder.Or | StructuredDynamics/osf/php/api/ws/search/ExtendedFiltersBuilder.php:157-162 | Appends exactly `+OR+`, records the call, keeps the invariant, and returns the same builder. |
| Builder.ExtendedFiltersBuilder.Not | StructuredDynamics/osf/php/api/ws/search/ExtendedFiltersBuilder.php:167-172 | Appends exactly `+NOT+`, records the call, keeps the invariant, and returns the same builder. |
| Builder.ExtendedFiltersBuilder.StartGrouping | StructuredDynamics/osf/php/api/ws/search/ExtendedFiltersBuilder.php:177-182 | Appends `(`, records the call, keeps the invariant, and returns the same builder. |
| Builder.ExtendedFiltersBuilder.EndGrouping | StructuredDynamics/osf/php/api/ws/search/ExtendedFiltersBuilder.php:187-192 | Appends `)`, records the call, keeps the invariant, and returns the same builder. |
| Builder.ExtendedFiltersBuilder.Append | StructuredDynamics/osf/php/api/ws/search/ExtendedFiltersBuilder.php:82 | The `.=` on the buffer. `null` concatenates as the empty string, and the buffer after the append is the rendering of the calls with the new one added. |
| PhpStrings.StrReplace | StructuredDynamics/osf/php/api/ws/search/ExtendedFiltersBuilder.php:126-128 | PHP `str_replace` with an array of search strings, applied one after the other, with the total count. A call that made no replacement returns its subject unchanged. |
| PhpStrings.StrReplaceCountZero | StructuredDynamics/osf/php/api/ws/search/ExtendedFiltersBuilder.php:126-128 | The replacement count of a sequential `str_replace` is zero exactly when none of its non-empty search strings occurs in the original subject. |
| PhpStrings.ReplaceAllCountZero | StructuredDynamics/osf/php/api/ws/search/ExtendedFiltersBuilder.php:126-128 | One pass counts nothing exactly when its search string does not occur, and a pass that counts nothing leaves the subject unchanged. |
| UrlCodec.UrlEncode | StructuredDynamics/osf/php/api/ws/search/ExtendedFiltersBuilder.php:82 | The output is between one and three times as long as the input. It is made only of letters, digits, `-`, `_`, `.`, `+` and `%`. |
| UrlCodec.UrlDecodeEncode | StructuredDynamics/osf/php/api/ws/search/ExtendedFiltersBuilder.php:82 | `urldecode` undoes `urlencode` for every byte string. |
| UrlCodec.UrlEncodeInjective | StructuredDynamics/osf/php/api/ws/search/ExtendedFiltersBuilder.php:132-133 | Two strings with the same encoding are equal. |
| UrlCodec.UrlEncodeAppend | StructuredDynamics/osf/php/api/ws/search/ExtendedFiltersBuilder.php:102-103 | Encoding a concatenation is concatenating the encodings. |
| UrlCodec.UrlEncodeUnreserved | StructuredDynamics/osf/php/api/ws/search/ExtendedFiltersBuilder.php:149 | A string of letters, digits, `-`, `_` and `.` is its own encoding. |
| UrlCodec.DecodeEncodedByte | StructuredDynamics/osf/php/api/ws/search/ExtendedFiltersBuilder.php:82 | Decoding reads one encoded byte back (space, unreserved byte, or `%` and two upper-case hexadecimal digits) and continues with what follows. |
| Escaping.Escape | StructuredDynamics/osf/php/api/ws/search/ExtendedFiltersBuilder.php:199-206 | `escape`, computed by the source's sequential `str_replace` over its two tables. It equals the independent per-byte map that puts one backslash before each of the 20 escaped bytes. Its length is the input length plus the number of those bytes. |
| Escaping.EscapeIsPrefixed | StructuredDynamics/osf/php/api/ws/search/ExtendedFiltersBuilder.php:201-203 | The 20 sequential replacement passes together equal the per-byte map. |
| Escaping.EscapeTablesAreSource | StructuredDynamics/osf/php/api/ws/search/ExtendedFiltersBuilder.php:201-202 | The two tables put each of 20 distinct bytes behind a backslash, the backslash first, and together they cover exactly the escaped bytes. |
| Escaping.EscapeTablesPrefix | StructuredDynamics/osf/php/api/ws/search/ExtendedFiltersBuilder.php:203 | The sequential `str_replace` of any table of that shape puts one backslash before each byte of the table and leaves other bytes alone. |
| Escaping.EscapePassesFrom | StructuredDynamics/osf/php/api/ws/search/ExtendedFiltersBuilder.php:203 | The passes of such a table from any entry on, applied after the earlier ones, complete the per-byte map. |
| Escaping.PrefixStep | StructuredDynamics/osf/php/api/ws/search/ExtendedFiltersBuilder.php:203 | The pass for a byte not yet escaped adds its backslashes and touches none written earlier, because the backslash pass came first. |
| Escaping.UnescapeEscape | StructuredDynamics/osf/php/api/ws/search/ExtendedFiltersBuilder.php:199-206 | `escape` loses nothing: dropping the backslash in front of each escaped byte gives the input back. |
| Escaping.HasControlCharacters | StructuredDynamics/osf/php/api/ws/search/ExtendedFiltersBuilder.php:126-130 | The source's test: the `str_replace` count over the 22 control strings is positive. It holds exactly when the value contains one of the 19 single control bytes; ` OR `, ` AND ` and ` NOT ` add nothing because each contains a space. |
| Escaping.CountPositiveIff | StructuredDynamics/osf/php/api/ws/search/ExtendedFiltersBuilder.php:126-128 | Suppose every search string starts with a byte of a set, and each byte of the set is searched for on its own. Then replacing with the empty string counts something exactly when the subject holds a byte of the set. |
| FilterTerms.FilterValue | StructuredDynamics/osf/php/api/ws/search/ExtendedFiltersBuilder.php:126-139 | The value as written: escaped (one backslash before each escaped byte) when it is a URI or holds no control byte, and left as it is otherwise. |
| FilterTerms.FilterValueCases | StructuredDynamics/osf/php/api/ws/search/ExtendedFiltersBuilder.php:126-139 | The value is escaped exactly when it is a URI or holds no control byte; otherwise it is written as it is. |
| FilterTerms.DefaultValueIsRaw | StructuredDynamics/osf/php/api/ws/search/ExtendedFiltersBuilder.php:118-133 | The default value `*` is a control byte, so for a non-URI value it is written unescaped. |
| FilterTerms.EscapeLengthensReserved | StructuredDynamics/osf/php/api/ws/search/ExtendedFiltersBuilder.php:137-138 | Escaping a value that holds a control byte makes it strictly longer, so an escaped value and a raw one cannot coincide. |
| FilterTerms.DatasetTerm | StructuredDynamics/osf/php/api/ws/search/ExtendedFiltersBuilder.php:82 | The dataset term starts with `dataset:`, and one `urldecode` of the rest gives back the quoted dataset URI. |
| FilterTerms.TypeTerm | StructuredDynamics/osf/php/api/ws/search/ExtendedFiltersBuilder.php:96-104 | Without inference the type term starts with `type:`, and one `urldecode` of the rest gives back the quoted type URI. |
| FilterTerms.TypeTermWithInference | StructuredDynamics/osf/php/api/ws/search/ExtendedFiltersBuilder.php:100-104 | With inference the type token is the token without inference, the OR token and the `inferred_type:` test on the same URI, all in parentheses. |
| FilterTerms.KeywordToken | StructuredDynamics/osf/php/api/ws/search/ExtendedFiltersBuilder.php:147-192 | The operator tokens are exactly `+AND+`, `+OR+` and `+NOT+`, and the grouping tokens are `(` and `)`. |
| FilterTerms.AndToken | StructuredDynamics/osf/php/api/ws/search/ExtendedFiltersBuilder.php:149 | `urlencode(" AND ")` is `+AND+`. |
| FilterTerms.OrToken | StructuredDynamics/osf/php/api/ws/search/ExtendedFiltersBuilder.php:159 | `urlencode(" OR ")` is `+OR+`. |
| FilterTerms.NotToken | StructuredDynamics/osf/php/api/ws/search/ExtendedFiltersBuilder.php:169 | `urlencode(" NOT ")` is `+NOT+`. |
| FilterTerms.AttributeText | StructuredDynamics/osf/php/api/ws/search/ExtendedFiltersBuilder.php:132-138 | An attribute/value text holds exactly one `:`. Splitting there, taking off a trailing `[uri]` and decoding each side twice gives back the attribute, the URI flag and the value as written. |
| FilterTerms.AttributeTermRoundTrip | StructuredDynamics/osf/php/api/ws/search/ExtendedFiltersBuilder.php:126-139 | The same for the token of an attribute/value call: it has one `:`, and reads back as the attribute, the flag, and the value raw or escaped as decided. |
| FilterTerms.AttributeValueRecovered | StructuredDynamics/osf/php/api/ws/search/ExtendedFiltersBuilder.php:126-139 | Reading the token back recovers the caller's value: after unescaping when it was escaped, as it is when it was not. |
| FilterTerms.SplitMarkerEncoded | StructuredDynamics/osf/php/api/ws/search/ExtendedFiltersBuilder.php:132 | An encoded attribute never ends in `]`, so the `[uri]` marker is found exactly when it was added. |
| FilterTerms.RenderAppend | StructuredDynamics/osf/php/api/ws/search/ExtendedFiltersBuilder.php:80-192 | The buffer is append-only: two chains of calls render as their two renderings, one after the other. |
| FilterTerms.RenderSnoc | StructuredDynamics/osf/php/api/ws/search/ExtendedFiltersBuilder.php:80-192 | One more call adds exactly its token at the end. |
| FilterTerms.GroupingWraps | StructuredDynamics/osf/php/api/ws/search/ExtendedFiltersBuilder.php:177-192 | The calls between a start and an end grouping render between `(` and `)`. |
| FilterTerms.TypeTermParentheses | StructuredDynamics/osf/php/api/ws/search/ExtendedFiltersBuilder.php:94-107 | A type token holds one `(` and one `)` with inference, and none without. |
| FilterTerms.FilterTokenParentheses | StructuredDynamics/osf/php/api/ws/search/ExtendedFiltersBuilder.php:80-142 | A filter token holds parentheses only when it is a type filter with inference, and then one of each kind. |
| FilterTerms.KeywordTokenParentheses | StructuredDynamics/osf/php/api/ws/search/ExtendedFiltersBuilder.php:147-192 | An operator token holds no parenthesis, and a grouping token holds exactly its own. |
| FilterTerms.TokenParentheses | StructuredDynamics/osf/php/api/ws/search/ExtendedFiltersBuilder.php:80-192 | The number of `(` (or `)`) in any token is 1 when the call is the matching grouping or a type filter with inference, and 0 otherwise. |
| FilterTerms.ParenthesesCount | StructuredDynamics/osf/php/api/ws/search/ExtendedFiltersBuilder.php:94-192 | The rendered calls hold as many `(` as start groupings plus type filters with inference, and as many `)` as end groupings plus the same number. |
| FilterTerms.ParenthesisBalance | StructuredDynamics/osf/php/api/ws/search/ExtendedFiltersBuilder.php:102-192 | The surplus of `(` over `)` in the buffer equals that of start groupings over end groupings. |

## Left out

- The search request the usage example in the class comment feeds: `SearchQuery`, `send` and `getResultset` (lines 23-41). That is network I/O and response parsing. The sample output in that comment is not stated as a lemma: it is laid out over several lines and writes the operators as ` AND ` and ` OR `, where the code emits `+AND+` and `+OR+`. Each of its terms is an instance of the term lemmas above.
- The ontology function-call classes of the wider repository. They only set constant request parameters on a base class that is not part of this model.
- PHP's loose typing. Both flags are `bool`. So `=== FALSE` at line 96, `=== TRUE` at lines 132 and 137, and `!` at line 130 all read as plain tests. A non-boolean truthy argument, which the three tests treat inconsistently, is not modelled.
- Character sets. Strings are byte strings, and bytes are characters below 256. No UTF-8 decoding is modelled, and neither is anything PHP does with multibyte text.
- The property `$extendedFilters` declared at line 61 is never used. Every method works on the undeclared property `extendedAttributes`. The model keeps this: the buffer is `Option<Bytes>`, `None` until the first append, so `GetExtendedFilters` on a fresh builder returns `None` (PHP `null`), not an empty string.
- `urldecode`, `Unescape` and `ParseAttributeTerm` are not in the source. They are reference inverses, used only to state round-trip properties.
- No validation of operator or grouping order. The source performs none, and the model adds none. Unbalanced groups render as written.
- Returning `$this` is modelled as an out-parameter equal to `this`. Chained calls become successive statements on that reference.
- Encoding depth, as the code has it: type terms and operators are percent-encoded once (lines 98, 102-103, 149-169), and only the two sides of an attribute/value term twice (lines 132-138).
