/** The line-based reader of `schema!` blocks (rapina-cli/src/commands/schema_source.rs). */
module SchemaSource {
  import opened Wrappers
  import opened Text
  import opened CoreLines

  datatype ParsedField = ParsedField(name: string, column: Option<string>, typeStr: string)

  datatype ParsedEntity = ParsedEntity(
    name: string,
    tableName: Option<string>,
    primaryKey: Option<seq<string>>,
    hasCreatedAt: bool,
    hasUpdatedAt: bool,
    fields: seq<ParsedField>)

  const UNEXPECTED_END := "Unexpected end of schema! block"
  const NO_BLOCKS := "No schema! blocks found in src/entity.rs"

  // ---------------------------------------------------------------- one attribute line

  function TrimEndMatchesChar(s: string, c: char): string {
    if s != [] && s[|s| - 1] == c then TrimEndMatchesChar(s[..|s| - 1], c) else s
  }

  /** The first piece of a split at `(`, `=` and `]`. */
  function UpToDelimiter(s: string): string {
    if s == [] || s[0] in {'(', '=', ']'} then [] else [s[0]] + UpToDelimiter(s[1..])
  }

  function AttrName(s: string): string {
    Trim(UpToDelimiter(TrimStartMatches(s, "#[")))
  }

  function Between(s: string, open: char, close: char): Option<string> {
    var start := CharPos(s, open);
    var end := RFindChar(s, close);
    if start < |s| && end.Some? && end.value > start then Some(s[start + 1..end.value]) else None
  }

  function QuotedValue(s: string): Option<string> {
    Between(s, '\"', '\"')
  }

  function ParenInner(s: string): Option<string> {
    Between(s, '(', ')')
  }

  function ApplyAttr(line: string, e: ParsedEntity): ParsedEntity {
    var name := AttrName(line);
    if name == "table_name" then e.(tableName := QuotedValue(line))
    else if name == "primary_key" then
      e.(primaryKey := match ParenInner(line)
                       case Some(inner) => Some(TrimAll(Split(inner, ',')))
                       case None => None)
    else if name == "timestamps" then
      match ParenInner(line)
      case Some(inner) =>
        if Trim(inner) == "none" then e.(hasCreatedAt := false, hasUpdatedAt := false)
        else if Trim(inner) == "created_at" then e.(hasUpdatedAt := false)
        else if Trim(inner) == "updated_at" then e.(hasCreatedAt := false)
        else e
      case None => e
    else e
  }

  function ApplyAttrs(attrs: seq<string>, e: ParsedEntity): ParsedEntity {
    if attrs == [] then e else ApplyAttrs(attrs[1..], ApplyAttr(attrs[0], e))
  }

  // ---------------------------------------------------------------- entities, as a function of the lines

  function NewEntity(name: string): ParsedEntity {
    ParsedEntity(name, None, None, true, true, [])
  }

  function EntityName(t: string): string {
    Trim(if t != [] && t[|t| - 1] == '{' then t[..|t| - 1] else t)
  }

  /** The column given by the last `#[column = "..."]` among the buffered attributes. */
  function ColumnOf(pending: seq<string>, column: Option<string>): Option<string> {
    if pending == [] then column
    else ColumnOf(pending[1..], if AttrName(pending[0]) == "column" then QuotedValue(pending[0]) else column)
  }

  /** A field line is split at its first colon; a line without one is no field. */
  function FieldsOf(t: string, pending: seq<string>): seq<ParsedField> {
    var u := TrimEndMatchesChar(t, ',');
    var n := CharPos(u, ':');
    if n == |u| then []
    else [ParsedField(Trim(u[..n]), ColumnOf(pending, None), Trim(u[n + 1..]))]
  }

  /** The fields up to the closing brace, and the lines after it. */
  function Body(ls: seq<string>, pending: seq<string>, e: ParsedEntity): (r: (ParsedEntity, seq<string>))
    ensures |r.1| <= |ls|
  {
    if ls == [] then (e, [])
    else
      var t := Trim(ls[0]);
      if t == [] then Body(ls[1..], pending, e)
      else if t == "}" then (e, ls[1..])
      else if StartsWith(t, "#[") then Body(ls[1..], pending + [t], e)
      else Body(ls[1..], [], e.(fields := e.fields + FieldsOf(t, pending)))
  }

  type EntityResult = Result<(Option<ParsedEntity>, seq<string>), string>

  /** The next entity of the open block, or `None` at the brace that closes the block. */
  function NextEntity(ls: seq<string>, pending: seq<string>): (r: EntityResult)
    ensures r.Ok? ==> |r.value.1| < |ls|
  {
    if ls == [] then Err(UNEXPECTED_END)
    else
      var t := Trim(ls[0]);
      if t == [] || t == "{" then NextEntity(ls[1..], pending)
      else if t == "}" then Ok((None, ls[1..]))
      else if StartsWith(t, "#[") then NextEntity(ls[1..], pending + [t])
      else
        var (e, rest) := Body(ls[1..], [], ApplyAttrs(pending, NewEntity(EntityName(t))));
        Ok((Some(e), rest))
  }

  type ParseResult = Result<seq<ParsedEntity>, string>

  function Prepend(es: seq<ParsedEntity>, r: ParseResult): ParseResult {
    match r
    case Ok(more) => Ok(es + more)
    case Err(m) => Err(m)
  }

  lemma PrependNil(r: ParseResult)
    ensures Prepend([], r) == r
  {
    if r.Ok? {
      assert [] + r.value == r.value;
    }
  }

  lemma PrependConcat(a: seq<ParsedEntity>, b: seq<ParsedEntity>, r: ParseResult)
    ensures Prepend(a, Prepend(b, r)) == Prepend(a + b, r)
  {
    if r.Ok? {
      assert a + (b + r.value) == a + b + r.value;
    }
  }

  predicate OpensBlock(line: string) {
    StartsWith(Trim(line), "schema!")
  }

  function Outside(ls: seq<string>): ParseResult
    decreases |ls|
  {
    if ls == [] then Ok([])
    else if OpensBlock(ls[0]) then Inside(ls[1..])
    else Outside(ls[1..])
  }

  function Inside(ls: seq<string>): ParseResult
    decreases |ls|
  {
    match NextEntity(ls, [])
    case Err(m) => Err(m)
    case Ok((None, rest)) => Outside(rest)
    case Ok((Some(e), rest)) => Prepend([e], Inside(rest))
  }

  function ParseSchemaContent(content: string): ParseResult {
    match Outside(Lines(content))
    case Ok(es) => if es == [] then Err(NO_BLOCKS) else Ok(es)
    case Err(m) => Err(m)
  }

  // ---------------------------------------------------------------- the reader itself

  /** `std::str::Lines`, consumed as the reader goes. */
  class LineIter {
    var rest: seq<string>

    constructor (lines: seq<string>)
      ensures rest == lines
    {
      rest := lines;
    }

    method Next() returns (line: Option<string>)
      modifies this
      ensures old(rest) == [] ==> line == None && rest == []
      ensures old(rest) != [] ==> line == Some(old(rest)[0]) && rest == old(rest)[1..]
    {
      if rest == [] {
        line := None;
      } else {
        line, rest := Some(rest[0]), rest[1..];
      }
    }
  }

  method ApplyEntityAttrs(pending: seq<string>, start: ParsedEntity) returns (entity: ParsedEntity)
    ensures entity == ApplyAttrs(pending, start)
  {
    entity := start;
    for i := 0 to |pending|
      invariant ApplyAttrs(pending[i..], entity) == ApplyAttrs(pending, start)
    {
      assert pending[i..][1..] == pending[i + 1..];
      entity := ApplyAttr(pending[i], entity);
    }
  }

  method ColumnFrom(pending: seq<string>) returns (column: Option<string>)
    ensures column == ColumnOf(pending, None)
  {
    column := None;
    for i := 0 to |pending|
      invariant ColumnOf(pending[i..], column) == ColumnOf(pending, None)
    {
      assert pending[i..][1..] == pending[i + 1..];
      if AttrName(pending[i]) == "column" {
        column := QuotedValue(pending[i]);
      }
    }
  }

  /** The attributes and the name line; `None` when the block's closing brace comes first. */
  method ReadHeader(lines: LineIter) returns (r: Result<Option<ParsedEntity>, string>)
    modifies lines
    ensures match NextEntity(old(lines.rest), [])
            case Err(m) => r == Err(m)
            case Ok((None, rest)) => r == Ok(None) && lines.rest == rest
            case Ok((Some(e), rest)) => r.Ok? && r.value.Some? && Body(lines.rest, [], r.value.value) == (e, rest)
  {
    var pending: seq<string> := [];
    ghost var want := NextEntity(lines.rest, []);
    while true
      invariant NextEntity(lines.rest, pending) == want
      decreases |lines.rest|
    {
      var line := lines.Next();
      if line == None {
        return Err(UNEXPECTED_END);
      }
      var t := Trim(line.value);
      if t == [] || t == "{" {
        continue;
      }
      if t == "}" {
        return Ok(None);
      }
      if StartsWith(t, "#[") {
        pending := pending + [t];
        continue;
      }
      var entity := ApplyEntityAttrs(pending, NewEntity(EntityName(t)));
      return Ok(Some(entity));
    }
  }

  /** Fields, with their attributes buffered until the field line takes them. */
  method ReadFields(lines: LineIter, start: ParsedEntity) returns (entity: ParsedEntity)
    modifies lines
    ensures Body(old(lines.rest), [], start) == (entity, lines.rest)
  {
    entity := start;
    var pending: seq<string> := [];
    ghost var want := Body(lines.rest, [], start);
    while true
      invariant Body(lines.rest, pending, entity) == want
      decreases |lines.rest|
    {
      var line := lines.Next();
      if line == None {
        break;
      }
      var t := Trim(line.value);
      if t == [] {
        continue;
      }
      if t == "}" {
        break;
      }
      if StartsWith(t, "#[") {
        pending := pending + [t];
        continue;
      }
      var field := ReadField(t, pending);
      entity := entity.(fields := entity.fields + field);
      pending := [];
    }
  }

  method ReadField(t: string, pending: seq<string>) returns (field: seq<ParsedField>)
    ensures field == FieldsOf(t, pending)
  {
    var u := TrimEndMatchesChar(t, ',');
    var n := CharPos(u, ':');
    if n == |u| {
      return [];
    }
    var column := ColumnFrom(pending);
    field := [ParsedField(Trim(u[..n]), column, Trim(u[n + 1..]))];
  }

  method ParseNextEntity(lines: LineIter) returns (r: Result<Option<ParsedEntity>, string>)
    modifies lines
    ensures match NextEntity(old(lines.rest), [])
            case Err(m) => r == Err(m)
            case Ok((e, rest)) => r == Ok(e) && lines.rest == rest
  {
    r := ReadHeader(lines);
    if r.Ok? && r.value.Some? {
      var entity := ReadFields(lines, r.value.value);
      r := Ok(Some(entity));
    }
  }

  /** Entities up to the brace that closes the block. */
  method ReadBlock(lines: LineIter) returns (r: ParseResult)
    modifies lines
    ensures match r
            case Ok(es) =>
              Prepend(es, Outside(lines.rest)) == Inside(old(lines.rest)) && |lines.rest| < |old(lines.rest)|
            case Err(m) => Inside(old(lines.rest)) == Err(m)
  {
    var entities: seq<ParsedEntity> := [];
    ghost var want := Inside(lines.rest);
    PrependNil(want);
    while true
      invariant Prepend(entities, Inside(lines.rest)) == want
      invariant |lines.rest| <= |old(lines.rest)|
      decreases |lines.rest|
    {
      var e := ParseNextEntity(lines);
      if e.Ok? && e.value.Some? {
        PrependConcat(entities, [e.value.value], Inside(lines.rest));
      }
      match e {
        case Err(m) => return Err(m);
        case Ok(None) => return Ok(entities);
        case Ok(Some(entity)) => entities := entities + [entity];
      }
    }
  }

  /** The reader returns what the function of the text says. */
  method ReadSchemaContent(content: string) returns (r: ParseResult)
    ensures r == ParseSchemaContent(content)
  {
    var entities: seq<ParsedEntity> := [];
    var lines := new LineIter(Lines(content));
    ghost var want := Outside(lines.rest);
    PrependNil(want);
    while true
      invariant Prepend(entities, Outside(lines.rest)) == want
      decreases |lines.rest|
    {
      var line := lines.Next();
      if line == None {
        break;
      }
      if OpensBlock(line.value) {
        var block := ReadBlock(lines);
        match block {
          case Err(m) => return Err(m);
          case Ok(es) =>
            PrependConcat(entities, es, Outside(lines.rest));
            entities := entities + es;
        }
      }
    }
    assert entities + [] == entities;
    r := if entities == [] then Err(NO_BLOCKS) else Ok(entities);
  }
}
