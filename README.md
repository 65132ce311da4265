# Admin bulk setup: participant parsing, in Dafny

This project models the part of the workshop's admin bulk-setup notebook
(`setup/admin_bulk_setup.py`) that is plain logic rather than calls into
Spark:

- `parse_participants`, which turns the free-text participant list into a
  list of `{'schema': ..., 'email': ...}` records. Blank lines and `#`
  lines are skipped. Each other line is split at its commas. The first field
  is normalised into a schema name made only of `[a-z0-9_]`. The second
  field, if there is one, is the email.
- The fully-qualified schema name `catalog.schema` built for every participant.
- The three-way permission decision taken for every participant: grant, skip
  because there is no email, or skip because `GRANT_PERMISSIONS` is off.

Layout:

- `wrappers.dfy` holds `Option`, which stands for a value or Python's `None`.
- `py_strings.dfy` (module `PyStrings`) models the Python `str` operations
  the parser uses, on ASCII text: `strip`, `split` with a one-character
  separator, `lower` and `replace`. It also defines `Join` (`sep.join`),
  which the parser never calls; it is the inverse used to state the round
  trips of `split`. The lemmas there cover those round trips, the piece
  count, and what `strip` removes.
- `admin_bulk_setup.dfy` (module `AdminBulkSetup`) holds the following:
  - the configuration constants `CATALOG_NAME` and `GRANT_PERMISSIONS`;
  - the `Participant` record;
  - schema-name normalisation;
  - the parser, as a reference function `ParseLines` and as the loop
    `ParseParticipants`, which is proved equal to it;
  - the properties of the parsed list;
  - the qualified schema name;
  - the permission decision.

The loop's `else: continue` branch is kept in `ParseParticipants`. Since
`Split` always returns at least one piece, the branch is unreachable, and an
`assert false` there is proved.

## Model

| member | source | states |
|---|---|---|
| PyStrings.TrimLeft | setup/admin_bulk_setup.py:53-54 | The result is a suffix of the input. What was cut off is all whitespace. The result does not start with whitespace. |
| PyStrings.TrimRight | setup/admin_bulk_setup.py:53-54 | The result is a prefix of the input. What was cut off is all whitespace. The result does not end with whitespace. |
| PyStrings.Strip | setup/admin_bulk_setup.py:53-54 | `strip()` is never longer than its input. It neither starts nor ends with whitespace. |
| PyStrings.StripParts | setup/admin_bulk_setup.py:53-54 | Every string is `front + s.strip() + back` for some all-whitespace `front` and `back`. |
| PyStrings.StripSurrounded | setup/admin_bulk_setup.py:54 | Adding whitespace around a string does not change its `strip()`. |
| PyStrings.StripIdempotent | setup/admin_bulk_setup.py:54 | `s.strip().strip() == s.strip()`. |
| PyStrings.StripKeepsNonSpace | setup/admin_bulk_setup.py:54 | A character that is not whitespace occurs in `s.strip()` exactly when it occurs in `s`. |
| PyStrings.StripFirst | setup/admin_bulk_setup.py:54-55 | If `x.strip()` is non-empty, then `(x + y).strip()` starts with the same character, whatever `y` is. |
| PyStrings.Split | setup/admin_bulk_setup.py:53 | `split` always yields at least one piece. |
| PyStrings.SplitPrefix | setup/admin_bulk_setup.py:58 | A prefix without the separator joins the first piece of the split. |
| PyStrings.SplitSuffix | setup/admin_bulk_setup.py:58 | A suffix without the separator joins the last piece of the split. |
| PyStrings.JoinSplit | setup/admin_bulk_setup.py:53 | `sep.join(s.split(sep)) == s` for every string. |
| PyStrings.SplitJoin | setup/admin_bulk_setup.py:58 | Splitting separator-free pieces that were joined by the separator gives the pieces back. |
| PyStrings.SplitCount | setup/admin_bulk_setup.py:58 | A string with `k` separators splits into exactly `k + 1` pieces. |
| PyStrings.Lower | setup/admin_bulk_setup.py:61 | `lower()` keeps the length. `AdminBulkSetup.NormaliseCons` pins each character's value. |
| PyStrings.Replace | setup/admin_bulk_setup.py:61 | `replace()` of one character by another keeps the length. `AdminBulkSetup.NormaliseCons` pins each character's value. |
| PyStrings.SplitNoSeparator | setup/admin_bulk_setup.py:58 | No piece of a split contains the separator. |
| AdminBulkSetup.LowerWithUnderscores | setup/admin_bulk_setup.py:61 | The `lower().replace(' ', '_').replace('-', '_').replace('.', '_')` chain keeps the length. `AdminBulkSetup.NormaliseCons` pins each character's value. |
| AdminBulkSetup.DeleteNonSchemaChars | setup/admin_bulk_setup.py:69-71 | After `re.sub(r'[^a-z0-9_]', '', ...)` only `[a-z0-9_]` characters are left, and the result is no longer than the input. |
| AdminBulkSetup.NormaliseSchemaName | setup/admin_bulk_setup.py:61-71 | A normalised first field consists only of `[a-z0-9_]` and is no longer than the field. |
| AdminBulkSetup.NormaliseCons | setup/admin_bulk_setup.py:61-71 | Normalisation maps each character on its own. An upper-case letter becomes its lower-case letter. Space, `-` and `.` become `_`. A `[a-z0-9_]` character stays. Anything else is dropped. |
| AdminBulkSetup.NormaliseAppend | setup/admin_bulk_setup.py:61-71 | The normalisation of a concatenation is the concatenation of the normalisations. |
| AdminBulkSetup.NormaliseSchemaNameUnchanged | setup/admin_bulk_setup.py:69-71 | A name that already consists of `[a-z0-9_]` is returned unchanged. |
| AdminBulkSetup.NormaliseIdempotent | setup/admin_bulk_setup.py:61-71 | Normalising twice gives the same result as normalising once. |
| AdminBulkSetup.SeparatorBecomesUnderscore | setup/admin_bulk_setup.py:61 | A space, `-` or `.` becomes `_` where it stands; it is not deleted. |
| AdminBulkSetup.UpperIsLowered | setup/admin_bulk_setup.py:61 | An upper-case letter is lowered before the filter, so it survives it. |
| AdminBulkSetup.NormaliseJohnDoe | setup/admin_bulk_setup.py:61-71 | "John Doe" gives "john_doe". |
| AdminBulkSetup.StripFields | setup/admin_bulk_setup.py:58 | `[p.strip() for p in ...]` has one entry per field, and entry `i` is `Strip(fields[i])`. |
| AdminBulkSetup.FieldsOfStripped | setup/admin_bulk_setup.py:54-58 | Stripping the whole line before splitting does not change the stripped fields. |
| AdminBulkSetup.ParseLine | setup/admin_bulk_setup.py:54-77 | A line that yields a record gives it a non-empty schema name of `[a-z0-9_]` only. |
| AdminBulkSetup.RecordOf | setup/admin_bulk_setup.py:60-77 | A record made from a line's fields has a non-empty `[a-z0-9_]` schema name. |
| AdminBulkSetup.Lines | setup/admin_bulk_setup.py:53 | The stripped text always splits into at least one line. |
| AdminBulkSetup.ParseLines | setup/admin_bulk_setup.py:53-79 | There is at most one record per line. |
| AdminBulkSetup.ParseParticipants | setup/admin_bulk_setup.py:49-79 | The loop returns exactly the reference list `ParseLines(Lines(text))`. That list has no more records than lines, and every schema name is non-empty `[a-z0-9_]`. |
| AdminBulkSetup.ParsedSchemasValid | setup/admin_bulk_setup.py:69-77 | Every record of the parsed list has a non-empty `[a-z0-9_]` schema name. |
| AdminBulkSetup.ParseLinesAppend | setup/admin_bulk_setup.py:53-77 | Parsing two blocks of lines gives the two lists in order. Nothing is reordered or merged across lines. |
| AdminBulkSetup.SkippedLine | setup/admin_bulk_setup.py:55-56 | A blank line or a `#` line adds nothing, wherever it stands. |
| AdminBulkSetup.KeptLine | setup/admin_bulk_setup.py:73-77 | A line that yields a record adds it in its own position, even when an equal record came earlier. There is no deduplication. |
| AdminBulkSetup.LineFields | setup/admin_bulk_setup.py:53-58 | A line made of comma-free fields joined by commas has exactly those fields, stripped. |
| AdminBulkSetup.LineStart | setup/admin_bulk_setup.py:54-55 | The stripped line starts with the first character of its stripped first field. |
| AdminBulkSetup.EmailIsSecondField | setup/admin_bulk_setup.py:58-62 | With two or more fields, the schema name comes from the first field and the email is the stripped second field. Further fields are ignored. |
| AdminBulkSetup.NoCommaNoEmail | setup/admin_bulk_setup.py:63-65 | A line without a comma gives a record whose email is `None`. |
| AdminBulkSetup.EmptyNameDropped | setup/admin_bulk_setup.py:71-73 | A line whose first field normalises to the empty string gives no record, whatever follows it. |
| AdminBulkSetup.EmailIffComma | setup/admin_bulk_setup.py:58-65 | A record has an email exactly when its line contains a comma. That email contains no comma and is already stripped. |
| AdminBulkSetup.FullSchema | setup/admin_bulk_setup.py:120 | `catalog.schema` is as long as its two parts plus one. |
| AdminBulkSetup.SplitQualified | setup/admin_bulk_setup.py:120 | A name splits at its last `.` into a catalog part and a `.`-free schema part, and nothing else. It gives `None` exactly when there is no `.`. |
| AdminBulkSetup.FullSchemaRoundTrip | setup/admin_bulk_setup.py:120 | Catalog and schema are read back unchanged from `catalog.schema` when the schema has no `.`. |
| AdminBulkSetup.FullSchemaInjective | setup/admin_bulk_setup.py:120 | Within one catalog, two schema names (any names, not only parsed ones) give the same qualified name exactly when they are equal. |
| AdminBulkSetup.ParsedSchemasQualify | setup/admin_bulk_setup.py:120 | Every parsed record's qualified name reads back as that catalog and that schema. |
| AdminBulkSetup.PermissionDecision | setup/admin_bulk_setup.py:134-147 | Permissions are granted exactly when the flag is on and the email is truthy. The no-email branch is taken exactly when the email is `None` or `""`. The flag-off branch is taken exactly when the flag is off and the email is truthy. |
| AdminBulkSetup.TrailingCommaSkipsPermissions | setup/admin_bulk_setup.py:58-62 | The line `name,` gives the email `""`, which takes the no-email branch (lines 134 and 144) whether or not the flag is on. |
| AdminBulkSetup.ConfiguredParticipant | setup/admin_bulk_setup.py:27-40 | With the notebook's own `CATALOG_NAME` and `GRANT_PERMISSIONS` (used by the driver loop, lines 197-204, and by lines 120 and 134), every parsed participant's qualified name reads back as that catalog and schema. Permissions are granted exactly when the participant's email is non-empty. |

## Left out

- The Spark SQL statements are left out because they are calls into the database. These are `DESCRIBE`/`CREATE CATALOG` with its `try`/`except`, `CREATE SCHEMA`, the sample tables and their random data, the `GRANT` statements, and the verification, sharing and clean-up cells. The model keeps only the decision of which branch runs and the qualified name they use.
- The exception handler around the grants (lines 142-143) is left out. Whether a grant fails depends on the workspace.
- The driver loop over the parsed list and its success counter (lines 195-213) are not modelled as a loop, because they only call `create_participant_environment` and count. `ConfiguredParticipant` states what each call decides.
- Printed and displayed output is left out, because it has no effect on state.
- `setup/create_workshop_catalog.py` and the web page are left out, because they are outside the notebook's parser.
- PyStrings.Strip: only ASCII whitespace is whitespace, because the model is restricted to ASCII. Python's `str.strip()` also removes Unicode spaces such as U+00A0 and U+2028.
- AdminBulkSetup.NormaliseSchemaName: `lower()` changes only ASCII `A`-`Z`, because the model is restricted to ASCII. Python's `str.lower()` also lowers other letters, a few of which (such as the Kelvin sign U+212A) become ASCII letters that then pass the `[a-z0-9_]` filter.
- The `re` module is not modelled. The one substitution it performs is modelled directly as the character filter `DeleteNonSchemaChars`.
