/** The TLN and l2tTLN timeline output formats of plaso/output/tln.py: the
    field formatters of the TLN field formatting helper, its table from
    field name to formatter, and the field lists and headers of the two
    output modules.

    Values that the source obtains from libraries or from the inherited
    field formatting helper are inputs here: the ISO 8601 date and time
    string of the event, the formatted event message (missing when no event
    formatter matches), the event's POSIX time in seconds, and the host,
    user, short source, inode and time zone fields. */
module Tln {
  import opened Wrappers
  import opened Text
  import Decimal

  /** The character that separates the parts of a description. */
  const DescriptionFieldDelimiter: char := ';'

  /** The character that separates the columns of a TLN row and header. */
  const ColumnDelimiter: char := '|'

  /** The exception raised when no event formatter matches the event data. */
  datatype Error = NoFormatterFound(message: string)

  /** The timestamp description, with `UNKNOWN` for a missing or empty one. */
  function TimestampDescription(desc: Option<string>): (r: string)
    ensures r != []
    ensures desc.Some? && desc.value != [] ==> r == desc.value
    ensures desc.None? || desc.value == [] ==> r == "UNKNOWN"
  {
    match desc
    case Some(d) => if d != [] then d else "UNKNOWN"
    case None => "UNKNOWN"
  }

  /** The message with every description delimiter replaced by a space:
      same length, no delimiter left, every other character in place. */
  function SanitizeMessage(message: string): (r: string)
    ensures |r| == |message|
    ensures DescriptionFieldDelimiter !in r
    ensures forall i :: 0 <= i < |message| && message[i] != DescriptionFieldDelimiter ==>
      r[i] == message[i]
    ensures forall i :: 0 <= i < |message| && message[i] == DescriptionFieldDelimiter ==>
      r[i] == ' '
  {
    ReplaceCharAt(message, DescriptionFieldDelimiter, ' ');
    ReplaceChar(message, DescriptionFieldDelimiter, ' ')
  }

  /** The fixed text in front of the data type in the error message. */
  const NoFormatterPrefix: string := "Unable to find event formatter for: "

  /** The error message that names the data type of the event data, or
      `UNKNOWN` when the event data has no data type: the data type can be
      read back from between the fixed prefix and the final full stop. */
  function NoFormatterMessage(dataType: Option<string>): (r: string)
    ensures |r| == |NoFormatterPrefix| + |dataType.GetOr("UNKNOWN")| + 1
    ensures r[..|NoFormatterPrefix|] == NoFormatterPrefix && r[|r| - 1] == '.'
    ensures r[|NoFormatterPrefix|..|r| - 1] == dataType.GetOr("UNKNOWN")
  {
    var r := NoFormatterPrefix + dataType.GetOr("UNKNOWN") + ".";
    assert r[|NoFormatterPrefix|..|r| - 1] == dataType.GetOr("UNKNOWN");
    r
  }

  /** The description field: date and time, timestamp description and
      sanitised message, separated by "; "; an error when there is no
      formatted message. */
  function FormatDescription(isoDateTime: string, timestampDesc: Option<string>,
                             message: Option<string>, dataType: Option<string>)
    : (r: Result<string, Error>)
    ensures r.Err? <==> message.None?
    ensures r.Err? ==> r.error == NoFormatterFound(NoFormatterMessage(dataType))
    ensures r.Ok? ==>
      |r.value| == |isoDateTime| + 2 + |TimestampDescription(timestampDesc)| + 2 + |message.value|
    ensures r.Ok? ==> r.value[..|isoDateTime|] == isoDateTime
    ensures r.Ok? ==> DescriptionFieldDelimiter !in r.value[|r.value| - |message.value|..]
    ensures r.Ok? ==>
      r.value == isoDateTime + "; " + TimestampDescription(timestampDesc) + "; " +
                 SanitizeMessage(message.value)
  {
    match message
    case None => Err(NoFormatterFound(NoFormatterMessage(dataType)))
    case Some(m) =>
      var d := isoDateTime + "; " + TimestampDescription(timestampDesc) + "; " + SanitizeMessage(m);
      assert d[|d| - |m|..] == SanitizeMessage(m);
      Ok(d)
  }

  /** When neither the date string nor the timestamp description holds the
      delimiter, splitting a description on it gives back exactly three
      parts: the date string, the timestamp description and the sanitised
      message, the last two each after one space. */
  lemma DescriptionFields(isoDateTime: string, timestampDesc: Option<string>,
                          message: string, dataType: Option<string>)
    requires DescriptionFieldDelimiter !in isoDateTime
    requires DescriptionFieldDelimiter !in TimestampDescription(timestampDesc)
    ensures FormatDescription(isoDateTime, timestampDesc, Some(message), dataType).Ok?
    ensures Split(FormatDescription(isoDateTime, timestampDesc, Some(message), dataType).value,
                  DescriptionFieldDelimiter)
         == [isoDateTime, " " + TimestampDescription(timestampDesc), " " + SanitizeMessage(message)]
  {
    var d := DescriptionFieldDelimiter;
    var tsd, sanitized := TimestampDescription(timestampDesc), SanitizeMessage(message);
    JoinCons(" " + tsd, [" " + sanitized], d);
    JoinCons(isoDateTime, [" " + tsd] + [" " + sanitized], d);
    var parts := [isoDateTime] + ([" " + tsd] + [" " + sanitized]);
    assert parts == [isoDateTime, " " + tsd, " " + sanitized];
    assert Join(parts, d) == isoDateTime + "; " + tsd + "; " + sanitized;
    SplitJoin(parts, d);
  }

  /** A message without the delimiter appears in the description verbatim. */
  lemma DescriptionKeepsPlainMessage(isoDateTime: string, timestampDesc: Option<string>,
                                     message: string, dataType: Option<string>)
    requires DescriptionFieldDelimiter !in message
    ensures FormatDescription(isoDateTime, timestampDesc, Some(message), dataType).value ==
      isoDateTime + "; " + TimestampDescription(timestampDesc) + "; " + message
  {
    ReplaceCharIdentity(message, DescriptionFieldDelimiter, ' ');
  }

  /** The notes field: the event data's notes when there are any, otherwise
      the display name (empty when missing) and the inode. */
  function FormatNotes(notes: Option<string>, displayName: Option<string>, inode: string)
    : (r: string)
    ensures notes.Some? && notes.value != [] ==> r == notes.value
    ensures notes.None? || notes.value == [] ==>
      r == "File: " + displayName.GetOr("") + " inode: " + inode
  {
    if notes.Some? && notes.value != [] then notes.value
    else "File: " + displayName.GetOr("") + " inode: " + inode
  }

  /** The notes field is never empty, and formatting it again as notes
      leaves it unchanged. */
  lemma NotesStable(notes: Option<string>, displayName: Option<string>, inode: string,
                    otherName: Option<string>, otherInode: string)
    ensures FormatNotes(notes, displayName, inode) != []
    ensures FormatNotes(Some(FormatNotes(notes, displayName, inode)), otherName, otherInode)
         == FormatNotes(notes, displayName, inode)
  {
    var r := FormatNotes(notes, displayName, inode);
    if notes.None? || notes.value == [] {
      assert r[..6] == "File: ";
    }
  }

  /** The time field: the POSIX time in seconds in canonical decimal, "0"
      when the conversion gives nothing or zero; parsing the field back
      gives the seconds value. */
  function FormatTimestamp(posixSeconds: Option<int>): (r: string)
    ensures posixSeconds.None? || posixSeconds.value == 0 ==> r == "0"
    ensures Decimal.Canonical(r)
    ensures r == Decimal.Render(posixSeconds.GetOr(0))
    ensures Decimal.Parse(r) == Some(posixSeconds.GetOr(0))
  {
    var seconds := if posixSeconds.None? || posixSeconds.value == 0 then 0 else posixSeconds.value;
    Decimal.RenderParse(seconds);
    Decimal.Render(seconds)
  }

  /** Distinct timestamps give distinct time fields, and a missing timestamp
      reads like a zero one. */
  lemma TimestampDistinguishes(a: Option<int>, b: Option<int>)
    ensures FormatTimestamp(a) == FormatTimestamp(b) <==> a.GetOr(0) == b.GetOr(0)
  {
  }

  /** The formatter methods of the TLN field formatting helper. */
  datatype Callback =
    | Description | Hostname | Inode | Notes | SourceShort | Timestamp | TimeZone | Username

  /** The field format callback table: which formatter renders each field. */
  const FieldFormatCallbacks: map<string, Callback> := map[
    "description" := Description,
    "host" := Hostname,
    "inode" := Inode,
    "notes" := Notes,
    "source" := SourceShort,
    "time" := Timestamp,
    "tz" := TimeZone,
    "user" := Username
  ]

  /** What the formatters are given about one event. The host, user, short
      source, inode and time zone fields come from the inherited field
      formatting helper and are inputs. */
  datatype EventValues = EventValues(
    isoDateTime: string,
    timestampDesc: Option<string>,
    message: Option<string>,
    dataType: Option<string>,
    notes: Option<string>,
    displayName: Option<string>,
    posixSeconds: Option<int>,
    hostname: string,
    username: string,
    sourceShort: string,
    inode: string,
    timeZone: string)

  /** Runs one formatter on an event. */
  function FormatField(callback: Callback, ev: EventValues): (r: Result<string, Error>)
    ensures r.Err? <==> callback == Description && ev.message.None?
  {
    match callback
    case Description => FormatDescription(ev.isoDateTime, ev.timestampDesc, ev.message, ev.dataType)
    case Hostname => Ok(ev.hostname)
    case Inode => Ok(ev.inode)
    case Notes => Ok(FormatNotes(ev.notes, ev.displayName, ev.inode))
    case SourceShort => Ok(ev.sourceShort)
    case Timestamp => Ok(FormatTimestamp(ev.posixSeconds))
    case TimeZone => Ok(ev.timeZone)
    case Username => Ok(ev.username)
  }

  /** Every field of the list has a formatter in the callback table. */
  predicate HasCallbacks(table: map<string, Callback>, fieldNames: seq<string>)
  {
    forall f <- fieldNames :: f in table
  }

  /** The row of one event: each field rendered by the formatter the table
      names for it, in field order; the first formatter error aborts the
      row. */
  function FormatRow(table: map<string, Callback>, fieldNames: seq<string>, ev: EventValues)
    : (r: Result<seq<string>, Error>)
    requires HasCallbacks(table, fieldNames)
    ensures r.Ok? <==>
      forall i :: 0 <= i < |fieldNames| ==> FormatField(table[fieldNames[i]], ev).Ok?
    ensures r.Ok? ==> |r.value| == |fieldNames|
    ensures r.Ok? ==> forall i :: 0 <= i < |fieldNames| ==>
      r.value[i] == FormatField(table[fieldNames[i]], ev).value
  {
    if fieldNames == [] then Ok([])
    else
      match FormatField(table[fieldNames[0]], ev)
      case Err(e) => Err(e)
      case Ok(v) =>
        match FormatRow(table, fieldNames[1..], ev)
        case Err(e) => Err(e)
        case Ok(vs) => Ok([v] + vs)
  }

  /** An output module's name, field list and header line. */
  datatype OutputModule = OutputModule(name: string, fieldNames: seq<string>, header: string)

  const TlnOutputModule: OutputModule := OutputModule(
    "tln",
    ["time", "source", "host", "user", "description"],
    "Time|Source|Host|User|Description")

  const L2tTlnOutputModule: OutputModule := OutputModule(
    "l2ttln",
    ["time", "source", "host", "user", "description", "tz", "notes"],
    "Time|Source|Host|User|Description|TZ|Notes")

  /** The header has one column per field, each column is its field's name
      in capitals, and every field has a formatter. */
  predicate WellFormedLayout(m: OutputModule)
  {
    var columns := Split(m.header, ColumnDelimiter);
    |columns| == |m.fieldNames| &&
    (forall i :: 0 <= i < |columns| ==> Lower(columns[i]) == m.fieldNames[i]) &&
    HasCallbacks(FieldFormatCallbacks, m.fieldNames)
  }

  /** The TLN header is its five column titles joined by the delimiter. */
  lemma TlnHeaderJoin()
    ensures TlnOutputModule.header ==
      Join(["Time", "Source", "Host", "User", "Description"], ColumnDelimiter)
  {
    JoinFive("Time", "Source", "Host", "User", "Description", ColumnDelimiter);
    assert "Time|Source|Host|User|Description" ==
      "Time" + "|" + ("Source" + "|" + ("Host" + "|" + ("User" + "|" + "Description")));
  }

  /** The l2tTLN header is its seven column titles joined by the delimiter. */
  lemma L2tTlnHeaderJoin()
    ensures L2tTlnOutputModule.header ==
      Join(["Time", "Source", "Host", "User", "Description", "TZ", "Notes"], ColumnDelimiter)
  {
    var tln := ["Time", "Source", "Host", "User", "Description"];
    var extra := ["TZ", "Notes"];
    TlnHeaderJoin();
    JoinCons("TZ", ["Notes"], ColumnDelimiter);
    assert ["TZ"] + ["Notes"] == extra;
    JoinAppend(tln, extra, ColumnDelimiter);
    assert tln + extra == ["Time", "Source", "Host", "User", "Description", "TZ", "Notes"];
    assert L2tTlnOutputModule.header == TlnOutputModule.header + "|" + ("TZ" + "|" + "Notes");
  }

  /** The TLN header splits into its five column titles. */
  lemma TlnHeaderColumns()
    ensures Split(TlnOutputModule.header, ColumnDelimiter) ==
      ["Time", "Source", "Host", "User", "Description"]
  {
    TlnHeaderJoin();
    SplitJoin(["Time", "Source", "Host", "User", "Description"], ColumnDelimiter);
  }

  /** The l2tTLN header is the TLN header's columns followed by two more. */
  lemma L2tTlnHeaderColumns()
    ensures Split(L2tTlnOutputModule.header, ColumnDelimiter) ==
      ["Time", "Source", "Host", "User", "Description", "TZ", "Notes"]
  {
    L2tTlnHeaderJoin();
    SplitJoin(["Time", "Source", "Host", "User", "Description", "TZ", "Notes"], ColumnDelimiter);
  }

  /** Each TLN column title lower-cases to its field name. */
  lemma TlnColumnTitles()
    ensures forall i :: 0 <= i < 5 ==>
      Lower(["Time", "Source", "Host", "User", "Description"][i]) == TlnOutputModule.fieldNames[i]
  {
    assert Lower("Time") == "time";
    assert Lower("Source") == "source";
    assert Lower("Host") == "host";
    assert Lower("User") == "user";
    assert Lower("Description") == "description";
  }

  /** Each l2tTLN column title lower-cases to its field name. */
  lemma L2tTlnColumnTitles()
    ensures forall i :: 0 <= i < 7 ==>
      Lower(["Time", "Source", "Host", "User", "Description", "TZ", "Notes"][i]) ==
      L2tTlnOutputModule.fieldNames[i]
  {
    TlnColumnTitles();
    assert Lower("TZ") == "tz";
    assert Lower("Notes") == "notes";
  }

  /** The formatters of the TLN fields, in field order. */
  lemma TlnCallbacks()
    ensures HasCallbacks(FieldFormatCallbacks, TlnOutputModule.fieldNames)
    ensures forall i :: 0 <= i < 5 ==>
      FieldFormatCallbacks[TlnOutputModule.fieldNames[i]] ==
      [Timestamp, SourceShort, Hostname, Username, Description][i]
  {
  }

  /** The formatters of the l2tTLN fields, in field order. */
  lemma L2tTlnCallbacks()
    ensures HasCallbacks(FieldFormatCallbacks, L2tTlnOutputModule.fieldNames)
    ensures forall i :: 0 <= i < 7 ==>
      FieldFormatCallbacks[L2tTlnOutputModule.fieldNames[i]] ==
      [Timestamp, SourceShort, Hostname, Username, Description, TimeZone, Notes][i]
  {
  }

  /** A layout is well formed once its header's columns are known and each
      lower-cases to its field's name. */
  lemma LayoutFromColumns(m: OutputModule, columns: seq<string>)
    requires Split(m.header, ColumnDelimiter) == columns
    requires |columns| == |m.fieldNames|
    requires forall i :: 0 <= i < |columns| ==> Lower(columns[i]) == m.fieldNames[i]
    requires HasCallbacks(FieldFormatCallbacks, m.fieldNames)
    ensures WellFormedLayout(m)
  {
  }

  /** TLN has 5 fields, a header with one column per field, and a
      formatter for every field. */
  lemma TlnLayout()
    ensures |TlnOutputModule.fieldNames| == 5
    ensures WellFormedLayout(TlnOutputModule)
  {
    TlnHeaderColumns();
    TlnColumnTitles();
    TlnCallbacks();
    LayoutFromColumns(TlnOutputModule, ["Time", "Source", "Host", "User", "Description"]);
  }

  /** l2tTLN has 7 fields, a header with one column per field, and a
      formatter for every field. */
  lemma L2tTlnLayout()
    ensures |L2tTlnOutputModule.fieldNames| == 7
    ensures WellFormedLayout(L2tTlnOutputModule)
  {
    var columns := ["Time", "Source", "Host", "User", "Description", "TZ", "Notes"];
    L2tTlnHeaderColumns();
    L2tTlnColumnTitles();
    L2tTlnCallbacks();
    LayoutFromColumns(L2tTlnOutputModule, columns);
  }

  /** The fields l2tTLN adds after TLN's. */
  const L2tTlnExtraFields: seq<string> := ["tz", "notes"]

  /** l2tTLN extends TLN: its fields and header columns are TLN's followed
      by the time zone and notes. */
  lemma L2tTlnExtendsTln()
    ensures L2tTlnOutputModule.fieldNames == TlnOutputModule.fieldNames + L2tTlnExtraFields
    ensures Split(L2tTlnOutputModule.header, ColumnDelimiter) ==
      Split(TlnOutputModule.header, ColumnDelimiter) + ["TZ", "Notes"]
  {
    L2tTlnFieldsExtend();
    L2tTlnColumnsExtend();
  }

  /** The l2tTLN field list is TLN's followed by the two extra fields. */
  lemma L2tTlnFieldsExtend()
    ensures L2tTlnOutputModule.fieldNames == TlnOutputModule.fieldNames + L2tTlnExtraFields
  {
    var tln, l2t := TlnOutputModule.fieldNames, L2tTlnOutputModule.fieldNames;
    assert |l2t| == |tln + L2tTlnExtraFields|;
    forall i | 0 <= i < |l2t| ensures l2t[i] == (tln + L2tTlnExtraFields)[i] { }
  }

  /** The l2tTLN header columns are TLN's followed by TZ and Notes. */
  lemma L2tTlnColumnsExtend()
    ensures Split(L2tTlnOutputModule.header, ColumnDelimiter) ==
      Split(TlnOutputModule.header, ColumnDelimiter) + ["TZ", "Notes"]
  {
    var tln := ["Time", "Source", "Host", "User", "Description"];
    TlnHeaderColumns();
    L2tTlnHeaderColumns();
    assert tln + ["TZ", "Notes"] == ["Time", "Source", "Host", "User", "Description", "TZ", "Notes"];
  }

  /** A TLN row fails exactly when the event has no formatted message;
      otherwise it has 5 columns: the time, the short source, the host, the
      user and the description. */
  lemma TlnRow(ev: EventValues)
    ensures HasCallbacks(FieldFormatCallbacks, TlnOutputModule.fieldNames)
    ensures FormatRow(FieldFormatCallbacks, TlnOutputModule.fieldNames, ev).Err? <==>
      ev.message.None?
    ensures FormatRow(FieldFormatCallbacks, TlnOutputModule.fieldNames, ev).Ok? ==>
      FormatRow(FieldFormatCallbacks, TlnOutputModule.fieldNames, ev).value ==
      [FormatTimestamp(ev.posixSeconds), ev.sourceShort, ev.hostname, ev.username,
       FormatDescription(ev.isoDateTime, ev.timestampDesc, ev.message, ev.dataType).value]
  {
    TlnCallbacks();
    var fields := TlnOutputModule.fieldNames;
    assert FieldFormatCallbacks[fields[4]] == Description;
  }

  /** The row of a concatenated field list is the concatenation of the
      rows, and the first error wins. */
  lemma {:induction false} FormatRowAppend(table: map<string, Callback>, a: seq<string>,
                                           b: seq<string>, ev: EventValues)
    requires HasCallbacks(table, a) && HasCallbacks(table, b)
    ensures HasCallbacks(table, a + b)
    ensures FormatRow(table, a + b, ev) ==
      if FormatRow(table, a, ev).Err? then FormatRow(table, a, ev)
      else if FormatRow(table, b, ev).Err? then FormatRow(table, b, ev)
      else Ok(FormatRow(table, a, ev).value + FormatRow(table, b, ev).value)
  {
    if a == [] {
      assert a + b == b;
      assert FormatRow(table, a, ev) == Ok([]);
      if FormatRow(table, b, ev).Ok? {
        assert [] + FormatRow(table, b, ev).value == FormatRow(table, b, ev).value;
      }
    } else {
      var ab := a + b;
      assert ab[0] == a[0] && ab[1..] == a[1..] + b;
      FormatRowAppend(table, a[1..], b, ev);
      var restA, restB := FormatRow(table, a[1..], ev), FormatRow(table, b, ev);
      match FormatField(table[a[0]], ev)
      case Err(_) =>
      case Ok(v) =>
        if restA.Ok? && restB.Ok? {
          assert [v] + (restA.value + restB.value) == ([v] + restA.value) + restB.value;
        }
    }
  }

  /** The two extra l2tTLN fields never fail: the time zone and the notes. */
  lemma L2tTlnExtraRow(ev: EventValues)
    ensures HasCallbacks(FieldFormatCallbacks, L2tTlnExtraFields)
    ensures FormatRow(FieldFormatCallbacks, L2tTlnExtraFields, ev) ==
      Ok([ev.timeZone, FormatNotes(ev.notes, ev.displayName, ev.inode)])
  {
    var fields := L2tTlnExtraFields;
    assert FieldFormatCallbacks[fields[0]] == TimeZone;
    assert FieldFormatCallbacks[fields[1]] == Notes;
    var r := FormatRow(FieldFormatCallbacks, fields, ev);
    assert r.Ok?;
    assert r.value[0] == ev.timeZone;
    assert r.value[1] == FormatNotes(ev.notes, ev.displayName, ev.inode);
    assert |r.value| == 2;
    assert r.value == [ev.timeZone, FormatNotes(ev.notes, ev.displayName, ev.inode)];
  }

  /** An l2tTLN row fails exactly when the event has no formatted message;
      otherwise it is the TLN row followed by the time zone and the notes. */
  lemma L2tTlnRow(ev: EventValues)
    ensures HasCallbacks(FieldFormatCallbacks, L2tTlnOutputModule.fieldNames)
    ensures FormatRow(FieldFormatCallbacks, L2tTlnOutputModule.fieldNames, ev).Err? <==>
      ev.message.None?
    ensures FormatRow(FieldFormatCallbacks, L2tTlnOutputModule.fieldNames, ev).Ok? ==>
      FormatRow(FieldFormatCallbacks, L2tTlnOutputModule.fieldNames, ev).value ==
      FormatRow(FieldFormatCallbacks, TlnOutputModule.fieldNames, ev).value +
      [ev.timeZone, FormatNotes(ev.notes, ev.displayName, ev.inode)]
  {
    L2tTlnExtendsTln();
    TlnRow(ev);
    L2tTlnExtraRow(ev);
    FormatRowAppend(FieldFormatCallbacks, TlnOutputModule.fieldNames, L2tTlnExtraFields, ev);
  }
}
