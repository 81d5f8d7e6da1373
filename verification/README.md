# json-rules: string pre-operations, `contains_all` and `StringUtils` in Dafny

json-rules evaluates a rule, which is a tree of boolean expressions, against a JSON document. This project models four pure, sequential pieces of that engine and proves properties about them:

- **The `sub_str_after` and `sub_str_before` pre-operations** (`SubstringAfter`, `SubstringBefore`, `PreOperations`). Each cuts the text of a textual node at the first occurrence of a delimiter. An unset delimiter, or one that does not occur, leaves the text unchanged. A non-textual node raises the unsupported-operation fault (`Outcome.Unsupported`), unless `suppressExceptions` is set; then the result is `""`. The two operations satisfy a split law: before + delimiter + after = text.
- **The `contains_all` array expression** (`ContainsAll`). Its builder drops any pre-operation it is given. Its `evaluate` is `false` on a non-array node. Otherwise it compares the size of the intersection of the declared `values` and the document's element set against the size of that element set. That test decides *document elements ⊆ values*, which is the reverse of what the operator's name suggests. The model reproduces it literally.
- **`StringUtils`** (`StringUtils`): `hasLength`, `hasText`/`containsText`, `tokenizeToStringArray` and `toStringArray`. The tokenizer is an imperative method that scans the string once. It is proved equal to a reference definition, `Tokens`, of what `java.util.StringTokenizer` yields: the maximal runs of non-delimiter characters. It is also proved to meet the trimming and empty-token guarantees.
- **The `java.lang` primitives these rely on** (`JavaString`): `String.indexOf`, `String.trim` and `Character.isWhitespace`.

Java `null` is `Option.None`. A thrown `IllegalArgumentException` is `Outcome.Unsupported`. A Jackson `JsonNode` is `JsonNode.Node<V>`, where `V` is an abstract element type with equality standing for the values of a document array.

The `contains_all` builder does not reject a pre-operation at construction, although the expression supports none. It accepts the argument and silently discards it (`ContainsAllExpression.java:47-52`). The model does the same: `ContainsAll.Build` never fails and always yields an expression with no pre-operation.

## Model

| member | source | states |
|---|---|---|
| PreOperationOutcome.NotTextual | src/main/java/io/appform/jsonrules/expressions/preoperation/string/SubstringAfterOperation.java:51-59 | on a non-textual node the result is the fault exactly when `suppressExceptions` is off, and otherwise `""` |
| SubstringAfter.Compute | src/main/java/io/appform/jsonrules/expressions/preoperation/string/SubstringAfterOperation.java:38-60 | non-text gives the `NotTextual` policy; text never faults and gives a suffix of the text; an unset or absent delimiter gives the text unchanged; for the first occurrence at `i`, `text == text[..i] + delimiter + result` |
| SubstringAfter.TextIgnoresSuppression | src/main/java/io/appform/jsonrules/expressions/preoperation/string/SubstringAfterOperation.java:36-60 | on textual input the outcome is the same with `suppressExceptions` on or off, and it is never the fault |
| SubstringAfter.EmptyDelimiterKeepsText | src/main/java/io/appform/jsonrules/expressions/preoperation/string/SubstringAfterOperation.java:41-45 | the empty delimiter matches at index 0, so the whole text is returned |
| SubstringAfter.AfterFirstOccurrence | src/main/java/io/appform/jsonrules/expressions/preoperation/string/SubstringAfterOperation.java:41-45 | when `d` first occurs at `i`, the result is exactly the text following that occurrence of `d` |
| SubstringAfter.HelloCases | src/test/java/io/appform/jsonrules/SubStringAfterOperationTest.java:53-92 | on `"Hello"`: no delimiter gives `"Hello"`, `"H"` gives `"ello"`, `"Hell"` gives `"o"`, `"Hel"` gives `"lo"` |
| SubstringAfter.WholeTextCase | src/test/java/io/appform/jsonrules/SubStringAfterOperationTest.java:87-92 | `"9886098860"` cut after itself gives `""` |
| SubstringAfter.AbsentDelimiterCase | src/test/java/io/appform/jsonrules/SubStringAfterOperationTest.java:142-152 | `"Hello2"` does not occur in `"Hello"`, so `"Hello"` comes back unchanged |
| SubstringAfter.NonTextualCases | src/test/java/io/appform/jsonrules/SubStringAfterOperationTest.java:102-126 | an array or null node faults without suppression and yields `""` with it |
| SubstringBefore.Compute | src/main/java/io/appform/jsonrules/expressions/preoperation/string/SubstringBeforeOperation.java:38-60 | non-text gives the `NotTextual` policy; text never faults and gives a prefix of the text; an unset or absent delimiter gives the text unchanged; for the first occurrence at `i` the result is `text[..i]` |
| SubstringBefore.TextIgnoresSuppression | src/main/java/io/appform/jsonrules/expressions/preoperation/string/SubstringBeforeOperation.java:36-60 | on textual input the outcome is the same with `suppressExceptions` on or off, and it is never the fault |
| SubstringBefore.EmptyDelimiterGivesEmpty | src/main/java/io/appform/jsonrules/expressions/preoperation/string/SubstringBeforeOperation.java:41-45 | the empty delimiter yields `""` on every textual node |
| SubstringBefore.ResultFreeOfDelimiter | src/main/java/io/appform/jsonrules/expressions/preoperation/string/SubstringBeforeOperation.java:41-45 | when a non-empty delimiter is found, the returned prefix holds no occurrence of it |
| SubstringBefore.HelloCases | src/main/java/io/appform/jsonrules/expressions/preoperation/string/SubstringBeforeOperation.java:41-45 | `"H"` on `"Hello"` gives `""`; the absent `"Hello2"` gives `"Hello"` |
| SubstringBefore.NonTextualCases | src/main/java/io/appform/jsonrules/expressions/preoperation/string/SubstringBeforeOperation.java:51-59 | an array or null node faults without suppression and yields `""` with it |
| PreOperations.Compute | src/main/java/io/appform/jsonrules/expressions/preoperation/string/SubstringBeforeOperation.java:38-54 | either string pre-operation applies the shared non-text policy and never faults on text |
| PreOperations.SplitLaw | src/main/java/io/appform/jsonrules/expressions/preoperation/string/SubstringBeforeOperation.java:41-45 | if `d` occurs in `t`, then before(t, d) + d + after(t, d) == t, whatever either operation's suppression flag |
| PreOperations.AbsentDelimiter | src/main/java/io/appform/jsonrules/expressions/preoperation/string/SubstringAfterOperation.java:40-48 | with the delimiter unset or absent, both operations return the text itself |
| ContainsAll.Build | src/main/java/io/appform/jsonrules/expressions/array/ContainsAllExpression.java:47-52 | the built expression has type tag `contains_all` and no pre-operation; every other builder argument is kept |
| ContainsAll.BuildIgnoresPreOperation | src/main/java/io/appform/jsonrules/expressions/array/ContainsAllExpression.java:47-52 | the pre-operation given to the builder makes no difference to the expression built |
| ContainsAll.CommonSizeDecidesSubset | src/main/java/io/appform/jsonrules/expressions/array/ContainsAllExpression.java:60-61 | the intersection of `values` and `pathValues` is as large as `pathValues` exactly when `pathValues ⊆ values` |
| ContainsAll.Evaluate | src/main/java/io/appform/jsonrules/expressions/array/ContainsAllExpression.java:55-62 | true iff the node is an array and every one of its elements is among `values` |
| ContainsAll.DependsOnlyOnElementSet | src/main/java/io/appform/jsonrules/expressions/array/ContainsAllExpression.java:59 | two arrays with the same element set evaluate alike, so order and duplicates do not matter |
| ContainsAll.EmptyArrayHolds | src/main/java/io/appform/jsonrules/expressions/array/ContainsAllExpression.java:60-61 | the empty document array evaluates to true for every `values`, including the empty set |
| ContainsAll.Monotone | src/main/java/io/appform/jsonrules/expressions/array/ContainsAllExpression.java:60-61 | a true result stays true when `values` grows |
| ContainsAll.NonArrayNeverHolds | src/main/java/io/appform/jsonrules/expressions/array/ContainsAllExpression.java:56-57 | a node that is not an array evaluates to false for every `values` |
| ContainsAll.Examples | src/main/java/io/appform/jsonrules/expressions/array/ContainsAllExpression.java:59-61 | `[1,2]` against `{1,2,3}` is true and `[1,2,4]` is false; `[1]` against `{1,2}` is true, but `[1,2,3]` against `{1,2}` is false |
| StringUtils.HasLength | src/main/java/io/appform/jsonrules/utils/StringUtils.java:21-23 | true iff the string is present and non-empty |
| StringUtils.ContainsTextFrom | src/main/java/io/appform/jsonrules/utils/StringUtils.java:42-47 | the scan from index `i` finds text iff some character at or after `i` is not whitespace |
| StringUtils.ContainsText | src/main/java/io/appform/jsonrules/utils/StringUtils.java:40-48 | true iff some character is not whitespace, so false on empty or all-whitespace input |
| StringUtils.HasText | src/main/java/io/appform/jsonrules/utils/StringUtils.java:36-38 | true iff the string is present and has a non-whitespace character; it implies `HasLength` |
| StringUtils.WhitespaceOnlyHasLengthButNoText | src/main/java/io/appform/jsonrules/utils/StringUtils.java:14-38 | a string of whitespace has length but no text |
| StringUtils.ToStringArray | src/main/java/io/appform/jsonrules/utils/StringUtils.java:96-98 | a missing collection gives the empty array; a present one, empty or not, gives its elements in order |
| StringUtils.RunLength | src/main/java/io/appform/jsonrules/utils/StringUtils.java:75-78 | the length of the longest delimiter-free prefix: delimiter-free up to it, and a delimiter (or the end) at it |
| StringUtils.TokensAreNonEmptyRuns | src/main/java/io/appform/jsonrules/utils/StringUtils.java:75-78 | every token is non-empty and contains no delimiter character |
| StringUtils.TokensConcat | src/main/java/io/appform/jsonrules/utils/StringUtils.java:75-85 | the tokens concatenated in order equal the input with every delimiter character deleted |
| StringUtils.TokensOfJoin | src/main/java/io/appform/jsonrules/utils/StringUtils.java:75-78 | joining non-empty delimiter-free tokens with one delimiter and tokenizing gives the tokens back |
| StringUtils.KeepAllUntrimmed | src/main/java/io/appform/jsonrules/utils/StringUtils.java:79-84 | without trimming, non-empty tokens all pass the empty-token filter unchanged |
| StringUtils.KeepAllNonEmpty | src/main/java/io/appform/jsonrules/utils/StringUtils.java:82-84 | with `ignoreEmptyTokens` set, no kept token is empty |
| StringUtils.KeepAllTrimmed | src/main/java/io/appform/jsonrules/utils/StringUtils.java:79-81 | with `trimTokens` set, no kept token starts or ends with a character `<= ' '` |
| StringUtils.TokenizedProperties | src/main/java/io/appform/jsonrules/utils/StringUtils.java:68-87 | the reference result is empty for null input; obeys both flags; and equals the raw tokens when trimming is off |
| StringUtils.ScanToken | src/main/java/io/appform/jsonrules/utils/StringUtils.java:75-78 | from a non-delimiter, the scan stops just past the maximal delimiter-free run |
| StringUtils.AddToken | src/main/java/io/appform/jsonrules/utils/StringUtils.java:78-84 | one loop step appends the (optionally trimmed) token unless it is empty and empties are ignored |
| StringUtils.TokenizeToStringArray | src/main/java/io/appform/jsonrules/utils/StringUtils.java:68-87 | the method returns exactly the reference tokens, kept by the flags, together with the guarantees of `TokenizedProperties` |
| JavaString.IndexOf | src/main/java/io/appform/jsonrules/expressions/preoperation/string/SubstringAfterOperation.java:41-45 | -1 iff the delimiter does not occur; otherwise the least index at which it occurs |
| JavaString.Trim | src/main/java/io/appform/jsonrules/utils/StringUtils.java:79-81 | the result is an infix of the input with only characters `<= ' '` removed around it, and it neither starts nor ends with one |
| JavaString.TrimIdempotent | src/main/java/io/appform/jsonrules/utils/StringUtils.java:79-81 | trimming a trimmed token changes nothing |

## Left out

- Path resolution and `defaultResult` absorption are not modelled. Neither is reading the comparison set through `valuesPath`/`extractValues`. All of these live in `CollectionJsonPathBasedExpression` and the other expression superclasses, which are not part of this model. `ContainsAll.Evaluate` takes the resolved node and the comparison set as parameters.
- `JsonPath.read(evaluatedNode.toString(), "$")` is not modelled. It re-parses the array into Java objects; here the array's elements are taken as given values of the abstract type `V`.
- Java's cross-type numeric equality inside `HashSet` (`Integer` against `Long`) is not modelled; `V` has plain equality.
- The no-argument `ContainsAllExpression()` constructor is not modelled. Its field defaults come from the superclass, which is not part of this model.
- Rule parsing, `representation()` serialisation, the Lombok-generated builders and `equals`/`hashCode`/`toString`, and test fixture loading are not modelled.
- Java `String` indices count UTF-16 code units, while a Dafny `char` is a Unicode scalar value. Unpaired surrogates therefore cannot be represented, and text with supplementary characters is indexed per character rather than per code unit. For the same reason, `StringTokenizer`'s special handling of surrogate delimiters is not modelled.
- JavaString.IsWhitespace follows the Unicode tables of Java 9 and later. Java 8 also counts U+180E as whitespace.
- Jackson number nodes are reduced to an `int`. Floating point is out of scope, and only the node's kind matters to these operations.
- A `null` `delimiters` argument to `tokenizeToStringArray` is not modelled. The parameter is not nullable, and `StringTokenizer` would fail on it.
- The `catch (Exception e)` in both `compute` methods is not modelled separately. On a textual node, `asText`, `indexOf` and `substring` cannot fault, so the only fault is the unsupported-operation one raised inside the `try`. A missing evaluation context is not modelled.
- `toStringArray` receives a collection in its iteration order, modelled as a sequence.
