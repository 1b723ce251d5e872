# Smoothie order form — a verified model of its string and sequence logic

The system is a one-page order form. It reads the fruit catalog (`FRUIT_NAME`,
`SEARCH_ON`) from the `smoothies.public.fruit_options` table. It keeps one row
per fruit name and offers the names in a multiselect of at most five fruits.
For each selected fruit that has a usable `SEARCH_ON` key it requests
nutrition data from `https://my.smoothiefroot.com/api/fruit/<key>`. It then builds the text of an
`INSERT INTO smoothies.public.orders (ingredients, NAME_ON_ORDER)` statement
from the selected names and the name on the order.

The model covers the deterministic core of that flow, in five modules:

- `Wrappers` (wrappers.dfy): the `Option` type.
- `Catalog` (catalog.dfy): catalog rows, deduplication that keeps the first
  row of each name, the name-indexed lookup table, and the option list.
- `Lookup` (lookup.dfy): Python's `str.strip()`, the five-way decision for
  each selected fruit, and the loop that records one outcome per fruit.
- `Order` (order.dfy): the `", "` join, quote doubling, the insert statement
  template, and a reader for Snowflake's single-quoted string literals (`''`
  and backslash escapes). The reader shows where quote doubling keeps each
  value inside its literal (values without backslashes) and where it does not
  (see "## Findings").
- `Form` (form.dfy): one top-to-bottom run of the form.

A `SEARCH_ON` cell is the datatype `Key = Null | NaN | Str(text)`. The
nutrition service is the parameter `network: (nat, string) -> Reply`. It gives
the answer (`Delivered` or `Failed`) to the request made for position `i` of
the selection. Any exception between `requests.get` and the table display is
a `Failed` reply, so one fruit's failure stays local to that fruit.

In two places the model follows the code where a reader might expect otherwise:

- The insert statement is the code's triple-quoted f-string, not a one-line
  statement. It starts with a newline and eight spaces, breaks the line before
  `VALUES`, and ends with a newline and four spaces (`Order.InsertHead`,
  `Order.InsertTail`).
- A key is skipped as "not a number" only when it is a float NaN
  (`Key.NaN`). The text `"nan"` is not treated specially: it is stripped and
  looked up like any other key.

## Model

| member | source | states |
|---|---|---|
| Catalog.DropDuplicates | streamlit_app.py:25 | `drop_duplicates(subset=["FRUIT_NAME"])`; its own contract only bounds the length. It is specified by DropDuplicatesNames, DropDuplicatesKeepsFirst, DropDuplicatesOrder, DropDuplicatesOfDistinct and DropDuplicatesIdempotent |
| Catalog.IndexByName | streamlit_app.py:26 | `set_index("FRUIT_NAME")`: the index's keys are exactly the rows' names; IndexByNameLookup gives each name its row's key |
| Catalog.FirstIndex | streamlit_app.py:25 | the position of the first row carrying a name: that row has the name and no earlier row does |
| Catalog.DropDuplicatesNames | streamlit_app.py:25 | deduplication loses no fruit name and leaves each name exactly once |
| Catalog.DropDuplicatesKeepsFirst | streamlit_app.py:25 | every retained row is the first row of the input with its name, so its SEARCH_ON comes from that row |
| Catalog.DropDuplicatesOrder | streamlit_app.py:25 | retained rows keep the input's relative order, ordered by where each name first appears |
| Catalog.DropDuplicatesOfDistinct | streamlit_app.py:25 | rows whose names are already unique come through unchanged |
| Catalog.DropDuplicatesIdempotent | streamlit_app.py:25 | deduplicating twice gives the same rows as deduplicating once |
| Catalog.IndexByNameLookup | streamlit_app.py:26 | indexing rows with unique names maps each name to its own row's SEARCH_ON |
| Catalog.IndexOfFirstRows | streamlit_app.py:25-26 | the index of the deduplicated catalog has every catalog name as a key, mapped to the SEARCH_ON of that name's first row |
| Catalog.LoadCatalog | streamlit_app.py:25-31 | the options have no duplicates, are exactly the catalog's names, and are in first-appearance order; the index maps each catalog name to the key of its first row |
| Lookup.SkipSpace | streamlit_app.py:53 | scanning forward stops at the first non-whitespace character, or at the end, and passes only whitespace |
| Lookup.SkipSpaceBack | streamlit_app.py:53 | scanning backward stops just after the last non-whitespace character, or at the start, and passes only whitespace |
| Lookup.Strip | streamlit_app.py:53-54 | `strip()` gives an empty key exactly when the value is all whitespace; otherwise the key starts and ends with a non-whitespace character |
| Lookup.StripUnique | streamlit_app.py:53 | for any split of the value into whitespace, a core that starts and ends with non-whitespace, and whitespace, the stripped key is that core |
| Lookup.StripIdempotent | streamlit_app.py:53 | stripping an already stripped key changes nothing |
| Lookup.Decide | streamlit_app.py:41-75 | each fruit gets exactly one of five outcomes, each with its exact condition: not in the index; key None or NaN; key blank after stripping; looked up and shown; looked up and failed. A lookup happens exactly when the fruit is eligible. The URL is the API prefix followed by the stripped key, which is non-empty and has no whitespace at either end |
| Lookup.AttemptsCountEligible | streamlit_app.py:41-60 | when each outcome is decided fruit by fruit, the number of lookups equals the number of fruits that are in the index and have a present, non-NaN, non-blank key |
| Lookup.LookupPass | streamlit_app.py:39-75 | the loop records one outcome per selected fruit, in selection order. Each outcome depends only on that fruit and the reply to its own request, so a skip or a failure never stops later fruits. The number of lookups is the eligible count |
| Order.JoinNames | streamlit_app.py:37 | `", ".join(...)`: a single name joins to itself, and a longer list starts with its first name. With JoinNamesAppend this fixes the join of every list; SplitJoinNames is its inverse |
| Order.SplitJoinNames | streamlit_app.py:37 | when no name contains ", ", splitting the joined ingredient string on ", " gives back the selection, every name in its place |
| Order.JoinNamesAppend | streamlit_app.py:37 | joining two non-empty lists gives the two joins with ", " between them |
| Order.Escape | streamlit_app.py:78-79 | the escaped text is longer than the input by the number of single quotes |
| Order.EscapeAppend | streamlit_app.py:78-79 | escaping works character by character: escaping a concatenation concatenates the escapes |
| Order.EscapeApostrophe | streamlit_app.py:78-79 | a quote inside a value becomes two quotes, and the text on both sides is escaped unchanged (so `O'Brian` becomes `O''Brian`) |
| Order.EscapeQuoteFree | streamlit_app.py:78-79 | text without quotes passes through escaping unchanged |
| Order.UnescapeEscape | streamlit_app.py:78-79 | turning each `''` back into `'` recovers the original value exactly |
| Order.EscapeQuoteRunsEven | streamlit_app.py:78-84 | every maximal run of quotes in an escaped value has even length |
| Order.ReadEscapedLiteral | streamlit_app.py:78-84 | a value without backslashes, escaped and followed by a quote, reads as one Snowflake string literal whose value is exactly the original, and it ends at that quote |
| Order.InsertStatement | streamlit_app.py:78-84 | the statement starts with the fixed head and ends with the fixed tail; its length is the template's plus each value's length and quote count. ParseInsertStatement and InsertStatementBackslashBreaksOut specify what it reads back as |
| Order.ParseInsertStatement | streamlit_app.py:78-84 | for values without backslashes, the statement reads back as the fixed template with exactly two literals: the ingredients first and NAME_ON_ORDER second, with nothing the values could add outside them |
| Order.BackslashQuoteEndsLiteral | streamlit_app.py:78-84 | the value `\'x` escapes to `\''x`, and the literal read from it closes after `\'` with the value `'`, leaving `x'` outside |
| Order.InsertStatementBackslashBreaksOut | streamlit_app.py:78-89 | with NAME_ON_ORDER `\'x` and any backslash-free ingredients, the statement does not read back as the template with two literals |
| Order.EscapeLiteral | streamlit_app.py:78-79 | the corrected escape, which doubles both `'` and `\`, agrees with the code's escape on every value without a backslash |
| Order.ReadEscapedLiteralSafe | streamlit_app.py:78-84 | any value escaped by the corrected escape and followed by a quote reads back as exactly that value, and the literal ends at that quote |
| Order.SafeInsertStatement | streamlit_app.py:81-84 | the statement built with the corrected escape is the code's statement whenever neither value holds a backslash |
| Order.ParseSafeInsertStatement | streamlit_app.py:81-84 | with the corrected escape, the statement reads back as the fixed template with exactly the two values, whatever they hold |
| Form.RunForm | streamlit_app.py:25-86 | the options come from the loaded catalog. There is one outcome per selected fruit, each decided as above, and the lookup count is the eligible count. An empty selection gives no outcomes and no statement. Otherwise the preview is the insert statement for the joined selection, skipped and failed fruits included, and the name on the order |
| Form.AppleBananaLookups | streamlit_app.py:39-60 | with Apple keyed "apple" and Banana keyed "", Apple is looked up at the API prefix followed by `apple`, and Banana is skipped as blank without a request |

## Left out

- Rendering and widgets (title, texts, the name input and its default "Life of Brian", the multiselect, tables, subheaders, warnings, errors, the code view) are not modelled. The name is a parameter of `Form.RunForm`. The multiselect's limit is its `requires`.
- The Snowflake connection, the catalog table read and `to_pandas()` (lines 16-22) are external I/O. The catalog rows are an input sequence.
- The "Submit Order" button and the statement's execution with its success or failure report (lines 87-92) are external I/O. The model produces the statement text and stops there.
- `requests.get` with its 10-second timeout, `raise_for_status`, `resp.json()` and the normalisation of a JSON object or list into a table (lines 63-73) are network calls and foreign libraries. They are reduced to a `Delivered` or `Failed` reply per request.
- Warning and error message texts are presentation and are not modelled. The outcome records which case applied and which fruit it concerned.
- `str()` of a SEARCH_ON value that is neither None, a float NaN, nor a string (an integer, say) is not modelled. A NaN or None fruit name is not modelled either: names are strings.
- Lookup.Strip: whitespace is the character set of Python's `str.isspace`, written out in `Lookup.IsSpace`.
- Order.ParseInsertStatement: holds only for values without a backslash. With Snowflake's backslash escapes, a value holding one can end its literal early (see "## Findings").
- Order.ReadEscapedLiteral: holds only for values without a backslash, for the same reason.
- Order.ReadLiteral: Snowflake's `\0`, octal (`\ooo`), hex (`\xhh`) and `\u` escapes are not modelled. A backslash followed by a digit, `x` or `u` reads as that character. `\n`, `\t`, `\r`, `\b` and `\f` read as their control characters, and any other escaped character reads as itself. None of these sequences occur in values escaped by `Order.EscapeLiteral`.
- Form.RunForm: the preview is the statement as the code builds it (`Order.InsertStatement`), not the corrected `Order.SafeInsertStatement`.

## Findings

| source | as written | input that shows it | evidently intended | confidence | as-written member | corrected member |
|---|---|---|---|---|---|---|
| streamlit_app.py:78-79 | both values are escaped by `replace("'", "''")` only, and the statement is run on Snowflake (line 89), whose single-quoted literals also read `\'` as a quote and `\\` as a backslash | NAME_ON_ORDER `\'x` is escaped to `\''x`. The name's literal closes right after `\'`, and `x')` is left as statement text | every value stays inside its literal, as the comment at line 77 intends; doubling `\` as well as `'` does this | not executed; relies on Snowflake's documented backslash escapes in single-quoted strings | Order.InsertStatementBackslashBreaksOut | Order.ParseSafeInsertStatement |
