/** The participant parser of the admin bulk-setup notebook and the two
    per-participant decisions that follow it: the fully-qualified schema name
    and whether permissions are granted. */
module AdminBulkSetup {
  import opened Wrappers
  import opened PyStrings

  /** The catalog the notebook creates, `CATALOG_NAME`. */
  const CatalogName: string := "mcp_workshop_shared"

  /** Whether the notebook grants permissions, `GRANT_PERMISSIONS`. */
  const GrantPermissions: bool := true

  /** One entry of the parsed list, the dictionary `{'schema': ..., 'email': ...}`;
      the email is Python's `None` when the line has no comma. */
  datatype Participant = Participant(schema: string, email: Option<string>)

  predicate IsSchemaChar(c: char) {
    'a' <= c <= 'z' || '0' <= c <= '9' || c == '_'
  }

  /** A name made only of `[a-z0-9_]`. */
  predicate IsSchemaName(s: string) {
    forall k :: 0 <= k < |s| ==> IsSchemaChar(s[k])
  }

  // ---------------------------------------------------------------------------
  // Schema-name normalisation

  /** The expression of line 61: lower-case the field, then turn every space,
      `-` and `.` into `_`. */
  function LowerWithUnderscores(field: string): (r: string)
    ensures |r| == |field|
  {
    Replace(Replace(Replace(Lower(field), ' ', '_'), '-', '_'), '.', '_')
  }

  /** The `re.sub(r'[^a-z0-9_]', '', ...)` of line 71: every character outside
      `[a-z0-9_]` is deleted and every one inside it is kept. */
  function DeleteNonSchemaChars(s: string): (r: string)
    ensures IsSchemaName(r)
    ensures |r| <= |s|
  {
    if s == [] then []
    else
      (if IsSchemaChar(s[0]) then [s[0]] else []) + DeleteNonSchemaChars(s[1..])
  }

  /** The schema name made from a first field (lines 61 and 71). */
  function NormaliseSchemaName(field: string): (r: string)
    ensures IsSchemaName(r)
    ensures |r| <= |field|
  {
    DeleteNonSchemaChars(LowerWithUnderscores(field))
  }

  /** Reference definition, character by character: an upper-case letter
      becomes its lower-case letter, space, `-` and `.` become `_`, a
      character of `[a-z0-9_]` stays, and anything else vanishes. */
  function SchemaCharOf(c: char): string {
    if IsUpper(c) then [LowerChar(c)]
    else if c == ' ' || c == '-' || c == '.' then ['_']
    else if IsSchemaChar(c) then [c]
    else []
  }

  /** The normalisation works one character at a time, as `SchemaCharOf` says. */
  lemma NormaliseCons(c: char, s: string)
    ensures NormaliseSchemaName([c] + s) == SchemaCharOf(c) + NormaliseSchemaName(s)
  {
    var t := LowerWithUnderscores([c] + s);
    var x := if c == ' ' || c == '-' || c == '.' then '_' else LowerChar(c);
    assert t == [x] + LowerWithUnderscores(s) by {
      forall k | 0 <= k < |t| ensures t[k] == ([x] + LowerWithUnderscores(s))[k] {
        if k > 0 {
          assert ([c] + s)[k] == s[k - 1];
        }
      }
    }
    assert t[1..] == LowerWithUnderscores(s);
  }

  /** Normalising a concatenation normalises each part. */
  lemma {:induction false} NormaliseAppend(a: string, b: string)
    ensures NormaliseSchemaName(a + b) == NormaliseSchemaName(a) + NormaliseSchemaName(b)
  {
    if a == [] {
      assert a + b == b;
    } else {
      assert a + b == [a[0]] + (a[1..] + b);
      assert a == [a[0]] + a[1..];
      calc {
        NormaliseSchemaName(a + b);
        NormaliseSchemaName([a[0]] + (a[1..] + b));
        { NormaliseCons(a[0], a[1..] + b); }
        SchemaCharOf(a[0]) + NormaliseSchemaName(a[1..] + b);
        { NormaliseAppend(a[1..], b); }
        SchemaCharOf(a[0]) + (NormaliseSchemaName(a[1..]) + NormaliseSchemaName(b));
        (SchemaCharOf(a[0]) + NormaliseSchemaName(a[1..])) + NormaliseSchemaName(b);
        { NormaliseCons(a[0], a[1..]); }
        NormaliseSchemaName(a) + NormaliseSchemaName(b);
      }
    }
  }

  /** A name already in `[a-z0-9_]*` is left as it is. */
  lemma {:induction false} NormaliseSchemaNameUnchanged(s: string)
    requires IsSchemaName(s)
    ensures NormaliseSchemaName(s) == s
  {
    if s != [] {
      assert s == [s[0]] + s[1..];
      NormaliseCons(s[0], s[1..]);
      NormaliseSchemaNameUnchanged(s[1..]);
    }
  }

  /** Normalising twice is normalising once. */
  lemma NormaliseIdempotent(field: string)
    ensures NormaliseSchemaName(NormaliseSchemaName(field)) == NormaliseSchemaName(field)
  {
    NormaliseSchemaNameUnchanged(NormaliseSchemaName(field));
  }

  /** A space, `-` or `.` in the first field becomes `_`; it is not deleted. */
  lemma SeparatorBecomesUnderscore(a: string, c: char, b: string)
    requires c == ' ' || c == '-' || c == '.'
    ensures NormaliseSchemaName(a + [c] + b) == NormaliseSchemaName(a) + ['_'] + NormaliseSchemaName(b)
  {
    assert a + [c] + b == a + ([c] + b);
    NormaliseAppend(a, [c] + b);
    NormaliseCons(c, b);
  }

  /** An upper-case letter is lowered before the filter, so it survives. */
  lemma UpperIsLowered(a: string, c: char, b: string)
    requires IsUpper(c)
    ensures NormaliseSchemaName(a + [c] + b) == NormaliseSchemaName(a) + [LowerChar(c)] + NormaliseSchemaName(b)
  {
    assert a + [c] + b == a + ([c] + b);
    NormaliseAppend(a, [c] + b);
    NormaliseCons(c, b);
  }

  /** The example of the notebook's comment: "John Doe" gives "john_doe". */
  lemma NormaliseJohnDoe(name: string)
    requires name == "John Doe"
    ensures NormaliseSchemaName(name) == "john_doe"
  {
    var ohn, oe := "ohn", "oe";
    assert name == ['J'] + (ohn + [' '] + (['D'] + oe));
    NormaliseSchemaNameUnchanged(ohn);
    NormaliseSchemaNameUnchanged(oe);
    calc {
      NormaliseSchemaName(name);
      { NormaliseCons('J', ohn + [' '] + (['D'] + oe)); }
      ['j'] + NormaliseSchemaName(ohn + [' '] + (['D'] + oe));
      { SeparatorBecomesUnderscore(ohn, ' ', ['D'] + oe); }
      ['j'] + (ohn + ['_'] + NormaliseSchemaName(['D'] + oe));
      { NormaliseCons('D', oe); }
      ['j'] + (ohn + ['_'] + (['d'] + oe));
      "john_doe";
    }
  }

  // ---------------------------------------------------------------------------
  // Parsing the participant list

  /** The comprehension of line 58: every comma-separated field, stripped. */
  function StripFields(fields: seq<string>): (r: seq<string>)
    ensures |r| == |fields|
    ensures forall i :: 0 <= i < |r| ==> r[i] == Strip(fields[i])
  {
    seq(|fields|, i requires 0 <= i < |fields| => Strip(fields[i]))
  }

  /** Whitespace added in front of the first field and behind the last one
      disappears when the fields are stripped. */
  lemma StripFieldsOfPadded(a: string, q: seq<string>, b: string, padded: seq<string>)
    requires AllSpace(a) && AllSpace(b) && |q| >= 1 && |padded| == |q|
    requires forall i :: 0 <= i < |q| ==>
      padded[i] == (if i == 0 then a else []) + q[i] + (if i == |q| - 1 then b else [])
    ensures StripFields(padded) == StripFields(q)
  {
    forall i | 0 <= i < |q| ensures Strip(padded[i]) == Strip(q[i]) {
      StripSurrounded(if i == 0 then a else [], q[i], if i == |q| - 1 then b else []);
    }
  }

  /** Where the pieces of `a + m + b` come from, given the pieces `q` of `m`:
      `a` joins the first piece and `b` the last. */
  lemma PaddedPieces(a: string, q: seq<string>, b: string, whole: seq<string>)
    requires |q| >= 1
    requires whole == [a + AppendToLast(q, b)[0]] + AppendToLast(q, b)[1..]
    ensures |whole| == |q|
    ensures forall i :: 0 <= i < |q| ==>
      whole[i] == (if i == 0 then a else []) + q[i] + (if i == |q| - 1 then b else [])
  {
    var n := |q|;
    var p := q[..n - 1] + [q[n - 1] + b];
    forall i | 0 <= i < n
      ensures whole[i] == (if i == 0 then a else []) + q[i] + (if i == n - 1 then b else [])
    {
      assert p[i] == if i == n - 1 then q[i] + b else q[i];
      if i == 0 {
        assert whole[0] == a + p[0];
      } else {
        assert whole[i] == p[i];
      }
    }
  }

  /** Whitespace around a line does not change its stripped fields. */
  lemma FieldsOfPaddedLine(a: string, m: string, b: string, sep: char)
    requires AllSpace(a) && AllSpace(b) && !IsSpace(sep)
    ensures StripFields(Split(a + (m + b), sep)) == StripFields(Split(m, sep))
  {
    assert sep !in a by {
      forall k | 0 <= k < |a| ensures a[k] != sep { assert IsSpace(a[k]); }
    }
    assert sep !in b by {
      forall k | 0 <= k < |b| ensures b[k] != sep { assert IsSpace(b[k]); }
    }
    SplitSuffix(m, b, sep);
    SplitPrefix(a, m + b, sep);
    PaddedPieces(a, Split(m, sep), b, Split(a + (m + b), sep));
    StripFieldsOfPadded(a, Split(m, sep), b, Split(a + (m + b), sep));
  }

  /** Stripping the whole line first does not change its stripped fields: the
      whitespace `strip` removes from the line is whitespace around the first
      or the last field. */
  lemma FieldsOfStripped(s: string, sep: char)
    requires !IsSpace(sep)
    ensures StripFields(Split(Strip(s), sep)) == StripFields(Split(s, sep))
  {
    var front, back := StripParts(s);
    FieldsOfPaddedLine(front, Strip(s), back, sep);
  }

  /** What one line of the text contributes (lines 54-77): nothing for a blank
      line, a comment line or a name that normalises to the empty string, and
      otherwise one record whose schema name is a non-empty `[a-z0-9_]` name. */
  function ParseLine(line: string): (r: Option<Participant>)
    ensures r.Some? ==> r.value.schema != [] && IsSchemaName(r.value.schema)
  {
    var stripped := Strip(line);
    if stripped == [] || stripped[0] == '#' then None
    else RecordOf(StripFields(Split(stripped, ',')))
  }

  /** The record made from the stripped fields of a line that is neither blank
      nor a comment (lines 60-77). */
  function RecordOf(parts: seq<string>): (r: Option<Participant>)
    requires |parts| >= 1
    ensures r.Some? ==> r.value.schema != [] && IsSchemaName(r.value.schema)
  {
    var schemaName := NormaliseSchemaName(parts[0]);
    var email := if |parts| >= 2 then Some(parts[1]) else None;
    if schemaName == [] then None else Some(Participant(schemaName, email))
  }

  /** The lines the parser walks over (line 53): the text is stripped as a
      whole and then split at every line feed. */
  function Lines(participantsText: string): (lines: seq<string>)
    ensures |lines| >= 1
  {
    Split(Strip(participantsText), '\n')
  }

  /** The records that the lines give, in line order, at most one per line. */
  function ParseLines(lines: seq<string>): (participants: seq<Participant>)
    ensures |participants| <= |lines|
  {
    if lines == [] then []
    else ParseLines(lines[..|lines| - 1]) + Records(ParseLine(lines[|lines| - 1]))
  }

  /** The records one line adds to the list: none or one. */
  function Records(r: Option<Participant>): (ps: seq<Participant>)
    ensures |ps| <= 1
  {
    match r
    case Some(p) => [p]
    case None => []
  }

  /** One more line adds its own records at the end. */
  lemma ParseLinesPrefix(lines: seq<string>, i: nat)
    requires i < |lines|
    ensures ParseLines(lines[..i + 1]) == ParseLines(lines[..i]) + Records(ParseLine(lines[i]))
  {
    assert lines[..i + 1][..i] == lines[..i];
  }

  /** `parse_participants` (lines 49-79): walk the lines, skip blank and
      comment lines, split each other line at its commas, normalise the first
      field into a schema name, take the second field, if any, as the email,
      and append a record unless the name came out empty. */
  method ParseParticipants(participantsText: string) returns (participantList: seq<Participant>)
    ensures participantList == ParseLines(Lines(participantsText))
    ensures |participantList| <= |Lines(participantsText)|
    ensures forall i :: 0 <= i < |participantList| ==>
      participantList[i].schema != [] && IsSchemaName(participantList[i].schema)
  {
    participantList := [];
    var lines := Lines(participantsText);
    for i := 0 to |lines|
      invariant participantList == ParseLines(lines[..i])
    {
      ParseLinesPrefix(lines, i);
      var line := Strip(lines[i]);
      if line == [] || line[0] == '#' {
        assert ParseLine(lines[i]) == None;
        assert participantList == ParseLines(lines[..i + 1]);
        continue;
      }
      var parts := StripFields(Split(line, ','));
      assert ParseLine(lines[i]) == RecordOf(parts);
      var schemaName: string;
      var email: Option<string>;
      if |parts| >= 2 {
        schemaName := LowerWithUnderscores(parts[0]);
        email := Some(parts[1]);
      } else if |parts| == 1 {
        schemaName := LowerWithUnderscores(parts[0]);
        email := None;
      } else {
        // `Split` yields at least one piece, so this branch is dead.
        assert false;
        continue;
      }
      schemaName := DeleteNonSchemaChars(schemaName);
      assert RecordOf(parts) == if schemaName == [] then None else Some(Participant(schemaName, email));
      if schemaName != [] {
        participantList := participantList + [Participant(schemaName, email)];
      }
      assert participantList == ParseLines(lines[..i + 1]);
    }
    assert lines[..|lines|] == lines;
    ParsedSchemasValid(lines);
  }

  // ---------------------------------------------------------------------------
  // Properties of the parsed list

  /** Every record of the list has a non-empty `[a-z0-9_]` schema name. */
  lemma {:induction false} ParsedSchemasValid(lines: seq<string>)
    ensures forall i :: 0 <= i < |ParseLines(lines)| ==>
      ParseLines(lines)[i].schema != [] && IsSchemaName(ParseLines(lines)[i].schema)
  {
    if lines != [] {
      var init := lines[..|lines| - 1];
      ParsedSchemasValid(init);
      var r := ParseLine(lines[|lines| - 1]);
      var ps := ParseLines(init);
      assert ParseLines(lines) == ps + Records(r);
      forall i | 0 <= i < |ParseLines(lines)|
        ensures ParseLines(lines)[i].schema != [] && IsSchemaName(ParseLines(lines)[i].schema)
      {
        if i < |ps| {
          assert ParseLines(lines)[i] == ps[i];
        } else {
          assert ParseLines(lines)[i] == r.value;
        }
      }
    }
  }

  /** Parsing two blocks of lines one after the other gives the two lists one
      after the other: line order is kept and nothing is merged across lines. */
  lemma {:induction false} ParseLinesAppend(a: seq<string>, b: seq<string>)
    ensures ParseLines(a + b) == ParseLines(a) + ParseLines(b)
  {
    if b == [] {
      assert a + b == a;
    } else {
      var init := b[..|b| - 1];
      assert (a + b)[..|a + b| - 1] == a + init && (a + b)[|a + b| - 1] == b[|b| - 1] by {
        assert a + b == (a + init) + [b[|b| - 1]];
      }
      ParseLinesAppend(a, init);
    }
  }

  lemma ParseLinesSingle(line: string)
    ensures ParseLines([line]) == Records(ParseLine(line))
  {
    assert [line][..0] == [];
  }

  /** A blank line or a comment line contributes nothing, wherever it stands. */
  lemma SkippedLine(before: seq<string>, line: string, after: seq<string>)
    requires Strip(line) == [] || Strip(line)[0] == '#'
    ensures ParseLines(before + [line] + after) == ParseLines(before + after)
  {
    ParseLinesAppend(before + [line], after);
    ParseLinesAppend(before, [line]);
    ParseLinesAppend(before, after);
    ParseLinesSingle(line);
  }

  /** A line that yields a record contributes it in its own place, also when an
      equal record came earlier: schema names are not deduplicated. */
  lemma KeptLine(before: seq<string>, line: string, after: seq<string>)
    requires ParseLine(line).Some?
    ensures ParseLines(before + [line] + after)
      == ParseLines(before) + [ParseLine(line).value] + ParseLines(after)
  {
    ParseLinesAppend(before + [line], after);
    ParseLinesAppend(before, [line]);
    ParseLinesSingle(line);
  }

  /** The stripped fields of a line written as comma-free fields joined by
      commas are those fields, stripped. */
  lemma LineFields(fields: seq<string>)
    requires |fields| >= 1
    requires forall i :: 0 <= i < |fields| ==> ',' !in fields[i]
    ensures StripFields(Split(Strip(Join(fields, ',')), ',')) == StripFields(fields)
  {
    FieldsOfStripped(Join(fields, ','), ',');
    SplitJoin(fields, ',');
  }

  /** The stripped line starts where its stripped first field starts. */
  lemma LineStart(fields: seq<string>)
    requires |fields| >= 1 && Strip(fields[0]) != []
    ensures Strip(Join(fields, ',')) != [] && Strip(Join(fields, ','))[0] == Strip(fields[0])[0]
  {
    var rest := JoinHead(fields);
    StripFirst(fields[0], rest);
  }

  /** A comma-joined line is its first field followed by the rest of the line. */
  lemma JoinHead(fields: seq<string>) returns (rest: string)
    requires |fields| >= 1
    ensures Join(fields, ',') == fields[0] + rest
  {
    if |fields| == 1 {
      rest := [];
      assert fields[0] + rest == fields[0];
    } else {
      rest := [','] + Join(fields[1..], ',');
    }
  }

  /** With two or more fields the schema name comes from the first field, the
      email is the stripped second field, and further fields are ignored. */
  lemma EmailIsSecondField(fields: seq<string>)
    requires |fields| >= 2
    requires forall i :: 0 <= i < |fields| ==> ',' !in fields[i]
    requires Strip(fields[0]) != [] && Strip(fields[0])[0] != '#'
    requires NormaliseSchemaName(Strip(fields[0])) != []
    ensures ParseLine(Join(fields, ','))
      == Some(Participant(NormaliseSchemaName(Strip(fields[0])), Some(Strip(fields[1]))))
  {
    var line := Join(fields, ',');
    var parts := StripFields(Split(Strip(line), ','));
    assert parts == StripFields(fields) by {
      LineFields(fields);
    }
    assert Strip(line) != [] && Strip(line)[0] != '#' by {
      LineStart(fields);
    }
    assert ParseLine(line) == RecordOf(parts);
    assert |parts| >= 2 && parts[0] == Strip(fields[0]) && parts[1] == Strip(fields[1]);
  }

  /** A line without a comma gives a record whose email is `None`. */
  lemma NoCommaNoEmail(line: string)
    requires ',' !in line
    requires Strip(line) != [] && Strip(line)[0] != '#'
    requires NormaliseSchemaName(Strip(line)) != []
    ensures ParseLine(line) == Some(Participant(NormaliseSchemaName(Strip(line)), None))
  {
    var parts := StripFields(Split(Strip(line), ','));
    assert parts == StripFields([line]) by {
      LineFields([line]);
    }
    assert parts[0] == Strip(line);
  }

  /** A line whose first field normalises to the empty string gives no record,
      whatever follows it. */
  lemma EmptyNameDropped(fields: seq<string>)
    requires |fields| >= 1
    requires forall i :: 0 <= i < |fields| ==> ',' !in fields[i]
    requires NormaliseSchemaName(Strip(fields[0])) == []
    ensures ParseLine(Join(fields, ',')) == None
  {
    LineFields(fields);
  }

  /** A record has an email exactly when its line holds a comma, and that email
      is stripped and holds no comma. */
  lemma EmailIffComma(line: string)
    requires ParseLine(line).Some?
    ensures ParseLine(line).value.email.Some? <==> ',' in line
    ensures ParseLine(line).value.email.Some? ==>
      ',' !in ParseLine(line).value.email.value
      && Strip(ParseLine(line).value.email.value) == ParseLine(line).value.email.value
  {
    var pieces := Split(Strip(line), ',');
    var parts := StripFields(pieces);
    assert |pieces| >= 2 <==> ',' in line by {
      StripKeepsNonSpace(line, ',');
      SplitCount(Strip(line), ',');
    }
    if |pieces| >= 2 {
      assert ',' !in pieces[1] by {
        SplitNoSeparator(Strip(line), ',');
      }
      StripKeepsNonSpace(pieces[1], ',');
      StripIdempotent(pieces[1]);
    }
  }

  // ---------------------------------------------------------------------------
  // Setting up one participant

  /** The fully-qualified schema name `catalog.schema` of line 120. */
  function FullSchema(catalogName: string, schemaName: string): (full: string)
    ensures |full| == |catalogName| + 1 + |schemaName|
  {
    catalogName + "." + schemaName
  }

  /** Reads a qualified name back, splitting it at its last `.`; `None` when
      it has no `.` at all. */
  function SplitQualified(name: string): (r: Option<(string, string)>)
    ensures r.None? <==> '.' !in name
    ensures r.Some? ==> name == r.value.0 + "." + r.value.1 && '.' !in r.value.1
  {
    if name == [] then None
    else if name[|name| - 1] == '.' then Some((name[..|name| - 1], []))
    else
      match SplitQualified(name[..|name| - 1])
      case None => None
      case Some((catalog, schema)) => Some((catalog, schema + [name[|name| - 1]]))
  }

  /** A schema name without `.` is recovered from its qualified name, whatever
      the catalog name holds. */
  lemma {:induction false} FullSchemaRoundTrip(catalogName: string, schemaName: string)
    requires '.' !in schemaName
    ensures SplitQualified(FullSchema(catalogName, schemaName)) == Some((catalogName, schemaName))
  {
    var full := FullSchema(catalogName, schemaName);
    if schemaName != [] {
      var init := schemaName[..|schemaName| - 1];
      assert full[..|full| - 1] == FullSchema(catalogName, init);
      assert full[|full| - 1] == schemaName[|schemaName| - 1];
      assert '.' !in init;
      FullSchemaRoundTrip(catalogName, init);
      assert init + [schemaName[|schemaName| - 1]] == schemaName;
    } else {
      assert full[..|full| - 1] == catalogName;
    }
  }

  /** Within one catalog, different schema names give different qualified
      names. */
  lemma FullSchemaInjective(catalogName: string, s1: string, s2: string)
    ensures FullSchema(catalogName, s1) == FullSchema(catalogName, s2) <==> s1 == s2
  {
    assert s1 == FullSchema(catalogName, s1)[|catalogName| + 1..];
    assert s2 == FullSchema(catalogName, s2)[|catalogName| + 1..];
  }

  /** Every parsed record yields a qualified name from which catalog and
      schema are read back unchanged. */
  lemma ParsedSchemasQualify(catalogName: string, lines: seq<string>, i: nat)
    requires i < |ParseLines(lines)|
    ensures SplitQualified(FullSchema(catalogName, ParseLines(lines)[i].schema))
      == Some((catalogName, ParseLines(lines)[i].schema))
  {
    var schemaName := ParseLines(lines)[i].schema;
    ParsedSchemasValid(lines);
    assert '.' !in schemaName by {
      forall k | 0 <= k < |schemaName| ensures schemaName[k] != '.' {
        assert IsSchemaChar(schemaName[k]);
      }
    }
    FullSchemaRoundTrip(catalogName, schemaName);
  }

  /** The three outcomes of the permission step (lines 134-147). */
  datatype PermissionAction = Grant | SkipNoEmail | SkipFlagOff

  /** Lines 134, 144 and 146: grant when the flag is on and the email is
      truthy; otherwise skip, reporting the missing email before the flag. */
  function PermissionDecision(grantPermissions: bool, email: Option<string>): (a: PermissionAction)
    ensures a == Grant <==> grantPermissions && email.Some? && email.value != []
    ensures a == SkipNoEmail <==> email == None || email == Some([])
    ensures a == SkipFlagOff <==> !grantPermissions && email.Some? && email.value != []
  {
    var truthy := email.Some? && email.value != [];
    if grantPermissions && truthy then Grant
    else if !truthy then SkipNoEmail
    else SkipFlagOff
  }

  /** A line "name," carries the empty email, which takes the no-email branch
      whether or not permissions are enabled. */
  lemma TrailingCommaSkipsPermissions(name: string, grantPermissions: bool)
    requires ',' !in name
    requires Strip(name) != [] && Strip(name)[0] != '#'
    requires NormaliseSchemaName(Strip(name)) != []
    ensures ParseLine(name + [',']) == Some(Participant(NormaliseSchemaName(Strip(name)), Some([])))
    ensures PermissionDecision(grantPermissions, ParseLine(name + [',']).value.email) == SkipNoEmail
  {
    var fields := [name, []];
    assert Join(fields, ',') == name + [','] by {
      assert Join(fields[1..], ',') == [];
    }
    assert Strip([]) == [];
    EmailIsSecondField(fields);
  }

  /** The driver loop runs every parsed participant with the notebook's own
      configuration: the participant's schema is created as
      `mcp_workshop_shared.<schema>`, which reads back unchanged, and its
      permissions are granted exactly when its email is non-empty. */
  lemma ConfiguredParticipant(lines: seq<string>, i: nat)
    requires i < |ParseLines(lines)|
    ensures SplitQualified(FullSchema(CatalogName, ParseLines(lines)[i].schema))
      == Some((CatalogName, ParseLines(lines)[i].schema))
    ensures PermissionDecision(GrantPermissions, ParseLines(lines)[i].email) == Grant
      <==> ParseLines(lines)[i].email.Some? && ParseLines(lines)[i].email.value != []
  {
    ParsedSchemasQualify(CatalogName, lines, i);
  }
}
