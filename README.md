# plaso TLN and l2tTLN output, modelled in Dafny

plaso writes forensic timeline events in two pipe-delimited formats:

- TLN has five columns: time, source, host, user and description.
- l2tTLN, the log2timeline extension, adds two more columns: time zone and notes.

This project models `plaso/output/tln.py`:

- the field formatters of the TLN field formatting helper: description, notes and time;
- the helper's table from field name to formatter;
- the field lists and header lines of the two output modules.

Modules:

- `Wrappers`: `Option` stands for Python's `None` or a missing attribute. `Result` stands for a value or a raised exception.
- `Text`: single-character `str.replace`, the one string operation the formatters use besides `str.format`. The module also has `str.split` and `str.join` on one separator character, and ASCII lower-casing. The source does not use these three; they are only used to state properties of the description and of the headers.
- `Decimal`: Python's `'{0:d}'` rendering of an integer, and a parser that reads it back.
- `Tln`: the formatters, the callback table, the two output modules and the rows they produce.

Values that come from libraries or from the inherited base helper are plain inputs of the model (`Tln.EventValues`):

- the event's ISO 8601 date and time string, from `timelib.Timestamp.CopyToIsoFormat`;
- the formatted message, from the output mediator's `GetFormattedMessages`; `None` when no event formatter matches;
- the POSIX time in seconds, from dfdatetime's `CopyToPosixTimestamp`; `None` when the conversion gives nothing;
- the host, user, short source, inode and time zone fields, which the base helper formats.

`Tln.FormatRow` runs the formatter that the callback table names for each field, in field order. A formatter error aborts the row. This is how the two output modules use the field list and the table. The base class that performs this dispatch is not part of this model.

## Model

| member | source | states |
|---|---|---|
| `Tln.TimestampDescription` | plaso/output/tln.py:56 | A missing or empty timestamp description becomes `UNKNOWN`. A non-empty one is passed through unchanged. The result is never empty. |
| `Tln.SanitizeMessage` | plaso/output/tln.py:64-66 | The sanitised message has the original's length and contains no `;`. Each `;` becomes a space, and every other character stays in place. |
| `Tln.NoFormatterMessage` | plaso/output/tln.py:60-62 | The error message is the fixed text `Unable to find event formatter for: `, then the data type (`UNKNOWN` when the event data has none), then a full stop. The data type can be read back from between the two. |
| `Tln.FormatDescription` | plaso/output/tln.py:39-66 | Fails with NoFormatterFound exactly when there is no formatted message. The error text names the data type, or `UNKNOWN` when there is none. On success the result is exactly the date string, `"; "`, the timestamp description, `"; "` and the sanitised message. So it starts with the date string, has length date + 2 + timestamp description + 2 + message, and ends with a message part free of `;`. A `;` in the date or the timestamp description is kept. |
| `Tln.DescriptionFields` | plaso/output/tln.py:64-66 | If the date string and the timestamp description hold no `;`, splitting the description on `;` gives exactly three parts: the date, the timestamp description and the sanitised message, the last two each after one space. |
| `Tln.DescriptionKeepsPlainMessage` | plaso/output/tln.py:64-66 | A message without `;` appears verbatim after the date string, `"; "`, the timestamp description and `"; "`. |
| `Tln.FormatNotes` | plaso/output/tln.py:79-86 | Non-empty notes are returned unchanged. Missing or empty notes are replaced by `"File: " + display name + " inode: " + inode`, where a missing display name is empty. |
| `Tln.NotesStable` | plaso/output/tln.py:81-86 | The notes field is never empty. Formatting it again as notes leaves it unchanged, whatever display name and inode are given. |
| `Tln.FormatTimestamp` | plaso/output/tln.py:100-106 | A missing or zero POSIX time gives `"0"`. Otherwise the field is the `'{0:d}'` rendering of the seconds value: canonical decimal, with no leading zero and no `-0`. Parsing the field back as a decimal integer gives the seconds value, or 0 when it is missing. |
| `Tln.TimestampDistinguishes` | plaso/output/tln.py:103-106 | Two time fields are equal exactly when their seconds values are equal, with a missing value counted as 0. |
| `Decimal.Render` | plaso/output/tln.py:106 | The `'{0:d}'` rendering of an integer is in canonical decimal form. It starts with `-` exactly for negative numbers and is `"0"` exactly for zero. |
| `Decimal.NatDigits` | plaso/output/tln.py:106 | The decimal digits of a natural number are never empty and are all digits. They start with `0` exactly when the number is zero. |
| `Decimal.ParseNatDigits` | plaso/output/tln.py:106 | Reading back the digits of a natural number gives that number. |
| `Decimal.RenderParse` | plaso/output/tln.py:106 | Parsing the `'{0:d}'` rendering of any integer, negative ones included, gives that integer. |
| `Decimal.RenderInjective` | plaso/output/tln.py:106 | Distinct integers have distinct renderings. |
| `Decimal.ParseRender` | plaso/output/tln.py:106 | Every canonical decimal string is the rendering of the number it denotes. Canonical means digits with no leading zero unless the string is `0`, or `-` followed by such digits not starting with `0`. |
| `Text.ReplaceChar` | plaso/output/tln.py:66 | Single-character replacement, the model of `message.replace(';', ' ')`, keeps the length of its input. |
| `Text.ReplaceCharAt` | plaso/output/tln.py:66 | Single-character replacement keeps the length. It rewrites exactly the replaced character and keeps every other character at its position. |
| `Text.ReplaceCharRemoves` | plaso/output/tln.py:66 | After replacing a character by a different one, the replaced character no longer occurs. |
| `Text.ReplaceCharIdentity` | plaso/output/tln.py:66 | Replacement leaves a string without the replaced character unchanged. |
| `Text.SplitJoin` | plaso/output/tln.py:134-136 | Splitting on the delimiter undoes joining when no piece holds the delimiter. |
| `Text.JoinAppend` | plaso/output/tln.py:156-159 | Joining two non-empty lists equals joining each and putting one delimiter between the results. |
| `Tln.FormatField` | plaso/output/tln.py:24-33 | Running a formatter fails exactly when it is the description formatter and the event has no formatted message. |
| `Tln.FormatRow` | plaso/output/tln.py:24-33 | A row succeeds exactly when every field's formatter succeeds. It then has one value per field, and each value is the output of that field's formatter. |
| `Tln.FormatRowAppend` | plaso/output/tln.py:156-157 | The row of a concatenated field list is the concatenation of the two rows. The first error wins. |
| `Tln.TlnCallbacks` | plaso/output/tln.py:24-33 | Every TLN field has an entry in the callback table `Tln.FieldFormatCallbacks`, the constant that models this table. The formatters are time, short source, host, user and description, in that order. |
| `Tln.L2tTlnCallbacks` | plaso/output/tln.py:24-33 | Every l2tTLN field has an entry in the callback table `Tln.FieldFormatCallbacks`. The formatters are TLN's five, then time zone and notes. |
| `Tln.TlnHeaderJoin` | plaso/output/tln.py:124 | The TLN header is the five titles Time, Source, Host, User and Description joined by the pipe character. |
| `Tln.L2tTlnHeaderJoin` | plaso/output/tln.py:159 | The l2tTLN header is the seven titles Time, Source, Host, User, Description, TZ and Notes joined by the pipe character. |
| `Tln.TlnHeaderColumns` | plaso/output/tln.py:122-124 | The TLN header splits on the pipe character into exactly its five column titles. |
| `Tln.L2tTlnHeaderColumns` | plaso/output/tln.py:156-159 | The l2tTLN header splits on the pipe character into exactly its seven column titles. |
| `Tln.TlnColumnTitles` | plaso/output/tln.py:122-124 | Each TLN column title, lower-cased, is the field name at the same position. |
| `Tln.L2tTlnColumnTitles` | plaso/output/tln.py:156-159 | Each l2tTLN column title, lower-cased, is the field name at the same position. |
| `Tln.TlnLayout` | plaso/output/tln.py:119-124 | The constant `Tln.TlnOutputModule` models the TLN module's name, field list and header. TLN has 5 fields and a header with one column per field, each column naming its field. Every field has a formatter. |
| `Tln.L2tTlnLayout` | plaso/output/tln.py:153-159 | The constant `Tln.L2tTlnOutputModule` models the l2tTLN module's name, field list and header. l2tTLN has 7 fields and a header with one column per field, each column naming its field. Every field has a formatter. |
| `Tln.L2tTlnExtendsTln` | plaso/output/tln.py:156-159 | The l2tTLN fields are TLN's followed by `tz` and `notes`. The l2tTLN header columns are TLN's followed by `TZ` and `Notes`. |
| `Tln.L2tTlnFieldsExtend` | plaso/output/tln.py:156-157 | The l2tTLN field list is exactly TLN's field list followed by `tz` and `notes`. |
| `Tln.L2tTlnColumnsExtend` | plaso/output/tln.py:159 | Splitting the l2tTLN header on the pipe character gives TLN's header columns followed by `TZ` and `Notes`. |
| `Tln.TlnRow` | plaso/output/tln.py:133-136 | A TLN row fails exactly when the event has no formatted message. Otherwise it is the time, short source, host, user and description, in that order. |
| `Tln.L2tTlnExtraRow` | plaso/output/tln.py:156-157 | The two fields l2tTLN adds never fail. They render the time zone and the notes. |
| `Tln.L2tTlnRow` | plaso/output/tln.py:168-171 | An l2tTLN row fails exactly when the event has no formatted message. Otherwise it is the TLN row followed by the time zone and the notes. |

## Left out

- ISO 8601 date formatting and time-zone handling (`timelib.Timestamp.CopyToIsoFormat`, plaso/output/tln.py:54-55) belong to a library outside this model. The date string is an input.
- The conversion from microseconds to POSIX seconds (dfdatetime's `PosixTimeInMicroseconds.CopyToPosixTimestamp`, plaso/output/tln.py:100-102) belongs to dfdatetime, which is not part of this model. Its result is an optional integer input. The docstring's "32-bit POSIX timestamp" is not enforced by the code, so the model renders any integer and does not wrap.
- Event formatting (`GetFormattedMessages` of the output mediator, plaso/output/tln.py:58) is not part of this model. Its message is an optional string input.
- The base helper's `_FormatHostname`, `_FormatUsername`, `_FormatSourceShort`, `_FormatInode` and `_FormatTimeZone` are inherited from `formatting_helper.FieldFormattingHelper`, which is not part of this model. Their results are string inputs.
- How the base class handles a field without a callback is not modelled, because `formatting_helper` is not part of this model. `Tln.FormatRow` requires every field to have a callback, and both output modules meet that requirement.
- Row writing, escaping, the delimiter in rows and header emission (`shared_dsv.DSVOutputModule`) are not modelled, because `shared_dsv` is not part of this model. Output registration (`manager.OutputManager.RegisterOutputs`, plaso/output/tln.py:174) is plugin glue and is also left out.
- An attribute of the event or of the event data that holds `None` is treated as missing. For the event's timestamp description and the event data's notes this matches the source, which tests them for falsiness. For `data_type` and `display_name`, Python's `'{0:s}'` would raise a `TypeError` on `None`. The model does not represent that exception.
- `Tln.FormatTimestamp`'s parse-back partner `Decimal.Parse` accepts only an optional `-` followed by digits. That is all `'{0:d}'` produces. Python's `int()` accepts more: signs, whitespace and underscores.
- The output modules' `DESCRIPTION` strings are not modelled. They are display text with no behaviour.
- The date string and the POSIX seconds are independent inputs of `Tln.EventValues`. In the source both come from the same `event.timestamp` (plaso/output/tln.py:54 and plaso/output/tln.py:100-101). The model does not relate them, and no property depends on such a relation.
