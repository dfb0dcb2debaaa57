# Verified model of the string helpers of `general.py`

`general.py` is the utility module of a small personal automation repository. Most of it
wraps outside services: SMTP, Google Sheets, pandas and subprocess. This project models
the string-building parts of five `GeneralUtil` methods in Dafny and proves what they
do. `snake_to_pascal` is pure; for `create_yaml_template`, `to_csv`, `send_sms` and `print`
the model covers the text they compute and leaves out the file, pandas, SMTP and console
I/O around it:

- **YAML template stripping** (`create_yaml_template`). Each line of a filled-in `.yaml`
  file is treated separately. A blank `"\n"` line and any line containing `#` are kept
  verbatim. Any other line without a `:` is dropped. In the remaining lines the value is
  blanked by `re.sub(':.+', ...)`, to `key:`, or to `key: []` when the line contains `[`.
  The regular expression is modelled as a left-to-right scanner that works on any string
  (`SubColonRest`). On a line as `readlines` returns it, the scanner replaces everything
  from the first colon followed by a non-newline character up to the newline
  (`SubAtFirstMatch`). The loop that builds the `template` list is a method proved
  against a specification function (`CreateTemplate`). `readlines` and `''.join` are
  modelled as functions on the file's text, and the two of them round-trip. With that,
  the rule is proved idempotent on whole files: running it on its own output changes
  nothing.
- **`snake_to_pascal`**. The string is split on `_`, each piece is capitalised (first
  character upper case, the rest lower case, for ASCII), and the pieces are concatenated.
  `str.split` is modelled with its round trip through `join`.
- **`to_csv` naming**. One trailing `/` is stripped from `dir`. An empty `dir` fails, as
  `dir[-1]` does. Occurrences of `.csv` are removed from `zip_name` in one
  non-overlapping pass, which can leave a `.csv` behind: `".c.csvsv"` becomes `".csv"`.
  `file_name` defaults to the processed `zip_name`. The result is the pair of the target
  path and the archive name.
- **`send_sms` addressing**. The carrier table is the source's own. A string receiver
  gives one address, and the `carrier` argument defaults to `verizon`. A dictionary
  receiver gives one address per entry, in insertion order, each with its own carrier.
  Every failed dictionary lookup is a `KeyError`, raised in the order Python evaluates
  the lookups. The T-Mobile suffix starts with a space, so those addresses contain a
  space before the `@`.
- **`print` framing** for a value that is neither a DataFrame nor a function. An
  optional ANSI colour code is put before the text and the `endc` reset after it. The
  text is then printed alone (header `0`) or as three header lines. An unknown colour
  is a `KeyError`. A negative header raises an exception. Both errors happen before
  anything is printed.

Files: `wrappers.dfy` (Option and Result), `text.dfy` (the Python string built-ins the
helpers use: `str.split` as `Split`, `sep.join` as `Join`, `''.join` as `Concat`, used
at general.py:379, `re.search` for a literal as `HasInfix`, used at general.py:318, and
`str.capitalize` as `Capitalize`), `yaml_template.dfy`, `snake_case.dfy`, `csv_archive.dfy`,
`sms_gateway.dfy`, `console_print.dfy` (with `Dashes` for `'-'*header` at general.py:98).

Notes on the source, stated as proved properties of the as-written model:

- In `to_csv`, the `re.search` guard at general.py:318 is redundant. `ToCsvTarget`'s
  contract states the result with `RemoveCsv` applied unconditionally.
- A key line whose value contains `#`, such as `password: abc#1\n`, reaches the `#` test
  at general.py:367 and is copied into the template with its value.
- `line == '\n'` at general.py:365 matches only an exact blank line. A line holding only
  spaces has no `:`, so it is dropped.

## Model

| member | source | states |
|---|---|---|
| `Text.Split` | general.py:488 | `str.split('_')` gives at least one piece, and no piece holds the separator |
| `Text.SplitCount` | general.py:488 | there is one piece more than there are separators |
| `Text.JoinSplit` | general.py:488 | joining the pieces with the separator gives back the string |
| `Text.SplitJoin` | general.py:488 | splitting a join of separator-free pieces gives back the pieces |
| `Text.SplitAround` | general.py:488 | a separator between `a` and `b` yields the pieces of `a` followed by those of `b` |
| `Text.Capitalize` | general.py:488 | `str.capitalize` on ASCII: same length, first character upper-cased, the others lower-cased |
| `SnakeCase.CapitalizeAll` | general.py:488 | the joined capitalised pieces are as long as the pieces together and hold no `_` when the pieces hold none |
| `SnakeCase.SnakeToPascal` | general.py:487-488 | the result contains no `_` |
| `SnakeCase.SnakeToPascalLength` | general.py:488 | the result's length is the input's length minus its number of underscores |
| `SnakeCase.PascalOfPiece` | general.py:488 | a string without `_` is simply capitalised |
| `SnakeCase.PascalOfJoin` | general.py:488 | converting `a_b` gives the conversion of `a` followed by that of `b`; with `PascalOfPiece` this pins the conversion of every string |
| `SnakeCase.EmptyPiecesVanish` | general.py:488 | a leading, trailing or doubled `_` adds nothing to the result |
| `YamlTemplate.ReadLines` | general.py:361 | `readlines` yields non-empty lines, with a newline only at the end of a line and on every line but the last |
| `YamlTemplate.ConcatReadLines` | general.py:361 | joining the lines `readlines` yields gives back the file's text |
| `YamlTemplate.ReadLinesConcat` | general.py:361 | reading the join of lines that `readlines` could yield gives back those lines |
| `YamlTemplate.SubColonRest` | general.py:373-375 | `re.sub(':.+', repl, s)` leaves a string without `:` unchanged |
| `YamlTemplate.FirstValueColon` | general.py:373-375 | finds the first colon followed by a non-newline character, where the one match of `:.+` in a line starts, or reports that there is none |
| `YamlTemplate.SubWithoutMatch` | general.py:373-375 | a string where `:.+` never matches is unchanged by the substitution |
| `YamlTemplate.SubAtFirstMatch` | general.py:373-375 | on a line, the text from the first match to the newline or the end is replaced by `repl`; the text before it and the trailing newline stay |
| `YamlTemplate.TemplateLine` | general.py:364-376 | `"\n"` and any line with `#` are kept unchanged; a line is dropped exactly when it is not `"\n"` and has neither `#` nor `:` |
| `YamlTemplate.BlankValue` | general.py:371-375 | any other line becomes its key up to the first value colon, then `: []` if the line has `[` or `:` otherwise, then its newline; a line like `key:\n` is unchanged |
| `YamlTemplate.KeyHasNoColon` | general.py:371-375 | the key in front of the first value colon holds no `:` |
| `YamlTemplate.BlankedIsFixed` | general.py:371-376 | a blanked line `key:` or `key: []` (with or without newline) is left as it is by the rule |
| `YamlTemplate.TemplateLineIdempotent` | general.py:363-376 | a line's output is a non-empty line with the same newline, and the rule maps it to itself |
| `YamlTemplate.Template` | general.py:363-376 | the template never has more lines than the input |
| `YamlTemplate.TemplateAppend` | general.py:363-376 | the template of a concatenation is the concatenation of the templates, so lines are handled one at a time and survivors keep their input order |
| `YamlTemplate.CreateTemplate` | general.py:363-376 | the `for` loop appending to `template` computes `Template(env)` |
| `YamlTemplate.TemplateIdempotent` | general.py:363-376 | applying the rule to a template's lines gives the same template |
| `YamlTemplate.TemplateIsReadLines` | general.py:363-376 | the template of lines `readlines` could yield is again such a list of lines |
| `YamlTemplate.CreateYamlTemplate` | general.py:360-379 | the written text is the join of the template of the lines read |
| `YamlTemplate.YamlTemplateTextIdempotent` | general.py:360-379 | making a template of a template file gives the same file |
| `CsvArchive.RemoveCsv` | general.py:318-319 | removing `.csv` shortens the string by a multiple of 4, and leaves it unchanged exactly when it holds no `.csv` |
| `CsvArchive.RemoveCsvAround` | general.py:319 | an occurrence the scan reaches is removed, and the text on each side is processed independently |
| `CsvArchive.RemoveCsvLeavesCsv` | general.py:319 | the single pass turns `.c.csvsv` into `.csv`, which still holds `.csv` |
| `CsvArchive.StripSlash` | general.py:316-317 | a directory ending in `/` loses exactly that one `/` (`"/"` becomes `""`, `"a///"` becomes `"a//"`); any other directory is unchanged |
| `CsvArchive.ToCsvTarget` | general.py:316-328 | it fails exactly on an empty `dir`; otherwise the path is `dir` with one trailing `/` removed if it ends in one, then `/`, `zip_name` after one left-to-right `.csv`-removal pass (which can leave a `.csv` behind), and `.zip`; the archive name is `file_name` or, by default, the processed `zip_name`, followed by `.csv` |
| `CsvArchive.OneSlashRemoved` | general.py:316-328 | `dir` and `dir/` give the same target; of `dir//` only one `/` is removed |
| `SmsGateway.GatewayAddress` | general.py:121-139 | a known carrier gives the number followed by its suffix; an unknown carrier is a `KeyError` for that carrier |
| `SmsGateway.EntryAddress` | general.py:135 | a person's address is `number` + suffix of `carrier`; a missing `number` is `KeyError('number')`; otherwise a missing `carrier` is `KeyError('carrier')`; otherwise an unknown carrier is `KeyError` of that carrier |
| `SmsGateway.EntryAddresses` | general.py:133-137 | the comprehension succeeds exactly when every entry does, giving one address per entry in order |
| `SmsGateway.FirstFailingEntry` | general.py:133-137 | a failing comprehension raises the error of its first failing entry |
| `SmsGateway.ToNumber` | general.py:133-139 | a string receiver gives one address or the carrier's `KeyError`; a dictionary receiver gives the list of its entries' addresses, in order, or the error of the comprehension; `carrier` defaults to `DefaultCarrier` |
| `SmsGateway.DefaultCarrierIsVerizon` | general.py:105 | without a `carrier` argument a single number goes to `number@vtext.com`, as with `carrier='verizon'` |
| `SmsGateway.PeopleIgnoreCarrier` | general.py:133-137 | for a dictionary receiver the `carrier` argument makes no difference |
| `SmsGateway.TMobileSuffixHasSpace` | general.py:121-127 | every suffix starts with `@` except T-Mobile's, which starts with a space |
| `ConsolePrint.Colored` | general.py:92-93 | without a colour (None or empty) the text is unchanged; with one it is the colour code, the text and the `endc` code, or a `KeyError` for an unknown colour |
| `ConsolePrint.Dashes` | general.py:98 | `'-'*header`: exactly `header` characters, every one a `-` |
| `ConsolePrint.PrintLines` | general.py:92-102 | a colour error comes first, then a negative header raises; header 0 prints exactly the text; a positive header `h` prints `# ` + `h` dashes, `# ` + text, and the same dashed line |
| `ConsolePrint.PrintRecoversText` | general.py:92-102 | removing the `# ` framing and the colour codes from the printed lines gives back the value's text |

## Left out

- `Selenium-Template.py`: browser automation through Selenium, a virtual display and fixed
  sleeps. It is not part of this model. The driver is closed only on the normal path
  (Selenium-Template.py:139-140), so an exception before that point leaks it.
- SMTP sessions and the actual sending in `send_sms` and `send_email`, together with
  MIME assembly and attachment reading in `_add_email_content`. These are network I/O
  and calls into `smtplib`, `email` and `mimetypes`.
- `set_option`, `get_gsheet_reader`, `gsheet_to_file` and `read_files`, the pandas write
  in `to_csv`, and the DataFrame and function branches of `print`. These call pandas,
  Google Sheets, IPython and `inspect`.
- `import_module`: it executes code, and it passes a module name as a regex pattern.
- `run_shell` (subprocess) and `HidePrints` (redirecting stdout).
- The file opening, reading and writing in `create_yaml_template`. The model takes the
  input file's text and returns the output file's text. Text-mode newline translation
  (`\r\n` and `\r` to `\n`) is assumed to have happened already.
- `ConsolePrint.PrintLines`: returns the lines that `print` writes. It does not model
  the newline each `print` call appends. The value `x` is given as its `str()` form.
- `Text.Capitalize`: changes the case of ASCII letters only; other characters are kept
  as they are. Python's `str.capitalize` also maps non-ASCII letters, so for non-ASCII
  input the model can differ, in length as well.
- `SnakeCase.SnakeToPascal`: exact for ASCII input only, for the same reason as
  `Text.Capitalize`.
- `SmsGateway.ToNumber`: `receiver` and phone numbers are given as their `str()`
  forms, which is what the f-strings turn them into. A carrier that is not a string
  (always a `KeyError` in the source) is not modelled, nor is an explicit `carrier=None`
  or a dictionary entry that is not itself a dictionary. A dictionary receiver is an ordered
  sequence of entries; person keys are not used.
- `CsvArchive.ToCsvTarget`: `method` and `compresslevel` are passed through to pandas
  unchanged, so the model does not include them.
