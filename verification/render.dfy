/** The TypeScript text produced for a definition (`Display for Field` and
    `Definiton::write_to_file` in src/internals.rs). Instead of writing to a file the
    model returns the text; where the source panics on a malformed collection tag the
    model returns `Panicked` carrying exactly the text the file held at that moment. */
module Renderer {
  import opened Results
  import opened Text
  import opened Schema
  import opened TypeMapper
  import opened Identifier

  const Newline: char := '\n'

  /** The lines of the static block written first, whether or not any field uses
      `Coordinates`; the last one is the blank line after the block. */
  const PreambleLines: seq<string> := ["type Coordinates = {", "type: string;", "coordinates: number[];", "}", ""]

  /** The static block as bytes: each line of `PreambleLines` followed by a newline,
      that is `type Coordinates = {\ntype: string;\ncoordinates: number[];\n}\n\n`. */
  const Preamble: string := Terminated(PreambleLines, Newline)

  /** The line that opens the interface. */
  function HeaderLine(id: string): string {
    "interface " + id + " {"
  }

  /** The lines written before any member line of the definition called `name`. */
  function Heading(name: string): seq<string> {
    PreambleLines + [HeaderLine(InterfaceName(name))]
  }

  /** The line that closes the interface. */
  const ClosingLine: string := "}"

  /** A render aborted by the panic in `parse_collection`: the text already written, the
      position of the offending field and its type tag. */
  datatype RenderError = Panicked(written: string, index: nat, tag: string)

  /** `Display for Field`: the member line `name: type;`, or the translation error. */
  function DisplayField(f: Field): (r: Result<string, MapError>)
    ensures r.Err? <==> ConvertToTs(f.deType).Err?
    ensures r.Ok? ==> r.value == f.name + ": " + ConvertToTs(f.deType).value + ";"
  {
    match ConvertToTs(f.deType)
    case Ok(t) => Ok(f.name + ": " + t + ";")
    case Err(e) => Err(e)
  }

  /** Every field's type tag translates. */
  predicate AllDisplay(fields: seq<Field>) {
    forall i :: 0 <= i < |fields| ==> DisplayField(fields[i]).Ok?
  }

  /** `i` is the position of the first field whose type tag does not translate. */
  predicate FirstFailure(fields: seq<Field>, i: nat) {
    i < |fields| && AllDisplay(fields[..i]) && DisplayField(fields[i]).Err?
  }

  /** The member lines of `fields`, one per field, in order. */
  function DisplayAll(fields: seq<Field>): (lines: seq<string>)
    requires AllDisplay(fields)
    ensures |lines| == |fields|
    ensures forall i :: 0 <= i < |fields| ==> lines[i] == DisplayField(fields[i]).value
    decreases |fields|
  {
    if |fields| == 0 then []
    else
      AllDisplayTail(fields);
      [DisplayField(fields[0]).value] + DisplayAll(fields[1..])
  }

  lemma AllDisplayTail(fields: seq<Field>)
    requires |fields| > 0 && AllDisplay(fields)
    ensures AllDisplay(fields[1..])
  {
    assert forall i :: 0 <= i < |fields| - 1 ==> fields[1..][i] == fields[i + 1];
  }

  /** The member lines written by the `for` loop of `write_to_file`, each followed by a
      newline; on a failing field, what had been written before it. */
  function MemberBlock(fields: seq<Field>): (r: Result<string, RenderError>)
    ensures r.Ok? <==> AllDisplay(fields)
    ensures r.Ok? ==> r.value == Terminated(DisplayAll(fields), Newline)
    ensures r.Err? ==> FirstFailure(fields, r.error.index)
    ensures r.Err? ==> r.error.tag == fields[r.error.index].deType
    ensures r.Err? ==> r.error.written == Terminated(DisplayAll(fields[..r.error.index]), Newline)
    decreases |fields|
  {
    if |fields| == 0 then Ok("")
    else
      match DisplayField(fields[0])
      case Err(_) =>
        assert fields[..0] == [];
        Err(Panicked("", 0, fields[0].deType))
      case Ok(line) =>
        match MemberBlock(fields[1..])
        case Ok(text) =>
          AllDisplayCons(fields);
          Ok(line + [Newline] + text)
        case Err(e) =>
          FailureAfterHead(fields, e.index);
          Err(Panicked(line + [Newline] + e.written, e.index + 1, e.tag))
  }

  /** A field list whose head formats formats entirely exactly when its tail does. */
  lemma AllDisplayCons(fields: seq<Field>)
    requires |fields| > 0 && DisplayField(fields[0]).Ok?
    ensures AllDisplay(fields) <==> AllDisplay(fields[1..])
  {
    var tail := fields[1..];
    assert forall i :: 0 <= i < |tail| ==> tail[i] == fields[i + 1];
    if AllDisplay(tail) {
      forall i | 0 <= i < |fields| ensures DisplayField(fields[i]).Ok? {
        if i > 0 {
          assert fields[i] == tail[i - 1];
        }
      }
    }
  }

  /** The first failure of the tail, shifted by one, is the first failure of the list
      when its head formats. */
  lemma FailureAfterHead(fields: seq<Field>, j: nat)
    requires |fields| > 0 && DisplayField(fields[0]).Ok?
    requires FirstFailure(fields[1..], j)
    ensures FirstFailure(fields, j + 1)
    ensures DisplayAll(fields[..j + 1]) == [DisplayField(fields[0]).value] + DisplayAll(fields[1..][..j])
  {
    var k := j + 1;
    assert fields[..k][1..] == fields[1..][..j];
    assert fields[..k][0] == fields[0];
    AllDisplayCons(fields[..k]);
  }

  /** The text `write_to_file` produces for `d`: the preamble, the interface header, one
      member line per field in order, and the closing brace, each line ended by a newline.
      When a field's type tag is a malformed collection the render aborts at the first
      such field, and the error records what had been written up to it. */
  function Render(d: Definition): (r: Result<string, RenderError>)
    ensures r.Ok? <==> AllDisplay(d.fields)
    ensures r.Ok? ==> r.value == Terminated(Heading(d.name) + DisplayAll(d.fields) + [ClosingLine], Newline)
    ensures r.Err? ==> FirstFailure(d.fields, r.error.index)
    ensures r.Err? ==> r.error.tag == d.fields[r.error.index].deType
    ensures r.Err? ==> r.error.written == Terminated(Heading(d.name) + DisplayAll(d.fields[..r.error.index]), Newline)
  {
    var id := InterfaceName(d.name);
    var head := Preamble + "interface " + id + " {\n";
    HeadText(id);
    match MemberBlock(d.fields)
    case Ok(block) =>
      ClosedText(Heading(d.name), DisplayAll(d.fields));
      Ok(head + block + "}\n")
    case Err(e) =>
      TerminatedAppend(Heading(d.name), DisplayAll(d.fields[..e.index]), Newline);
      Err(Panicked(head + e.written, e.index, e.tag))
  }

  /** The text of a whole declaration: the head, the member lines and the closing line. */
  lemma ClosedText(head: seq<string>, members: seq<string>)
    ensures Terminated(head + members + [ClosingLine], Newline)
         == Terminated(head, Newline) + Terminated(members, Newline) + "}\n"
  {
    TerminatedAppend(head, members, Newline);
    TerminatedSnoc(head + members, ClosingLine);
  }

  /** The preamble and header bytes are the preamble lines and the header line, each
      ended by a newline. */
  lemma HeadText(id: string)
    ensures Preamble + "interface " + id + " {\n" == Terminated(PreambleLines + [HeaderLine(id)], Newline)
  {
    TerminatedSnoc(PreambleLines, HeaderLine(id));
  }

  /** `write_to_file` as the source runs it: write the head, then the fields one at a time,
      stopping at the first field whose line cannot be formatted, then the closing brace.
      The file is modelled by the text written to it so far. */
  method WriteToFile(d: Definition) returns (r: Result<string, RenderError>)
    ensures r == Render(d)
  {
    var id := InterfaceName(d.name);
    var buff := Preamble;
    buff := buff + "interface " + id + " {\n";
    HeadText(id);
    var i := 0;
    assert Heading(d.name) + DisplayAll(d.fields[..0]) == Heading(d.name);
    while i < |d.fields|
      invariant 0 <= i <= |d.fields|
      invariant AllDisplay(d.fields[..i])
      invariant buff == Terminated(Heading(d.name) + DisplayAll(d.fields[..i]), Newline)
    {
      var line := DisplayField(d.fields[i]);
      if line.Err? {
        FirstFailureUnique(d.fields, i);
        return Err(Panicked(buff, i, d.fields[i].deType));
      }
      WriteStep(Heading(d.name), d.fields, i, line.value);
      buff := buff + line.value + "\n";
      i := i + 1;
    }
    assert d.fields[..i] == d.fields;
    TerminatedSnoc(Heading(d.name) + DisplayAll(d.fields), ClosingLine);
    assert buff + "}\n" == Terminated(Heading(d.name) + DisplayAll(d.fields), Newline) + ClosingLine + "\n";
    buff := buff + "}\n";
    return Ok(buff);
  }

  /** Writing one more member line extends the text by that line and a newline. */
  lemma WriteStep(head: seq<string>, fields: seq<Field>, i: nat, line: string)
    requires i < |fields| && AllDisplay(fields[..i]) && DisplayField(fields[i]) == Ok(line)
    ensures AllDisplay(fields[..i + 1])
    ensures Terminated(head + DisplayAll(fields[..i + 1]), Newline)
         == Terminated(head + DisplayAll(fields[..i]), Newline) + line + "\n"
  {
    var longer := DisplayAllSnoc(fields, i, line);
    TerminatedSnoc(head + DisplayAll(fields[..i]), line);
    assert head + longer == head + DisplayAll(fields[..i]) + [line];
  }

  /** The member lines of one more field are those of the shorter prefix and its line. */
  lemma DisplayAllSnoc(fields: seq<Field>, i: nat, line: string) returns (longer: seq<string>)
    requires i < |fields| && AllDisplay(fields[..i]) && DisplayField(fields[i]) == Ok(line)
    ensures AllDisplay(fields[..i + 1])
    ensures longer == DisplayAll(fields[..i + 1]) == DisplayAll(fields[..i]) + [line]
  {
    var pre, ext := fields[..i], fields[..i + 1];
    assert ext == pre + [fields[i]];
    AllDisplaySnoc(pre, fields[i]);
    longer := DisplayAll(ext);
    var shorter := DisplayAll(pre);
    forall j | 0 <= j < i + 1 ensures longer[j] == (shorter + [line])[j] {
      if j < i {
        assert ext[j] == pre[j];
      }
    }
  }

  /** Appending a field whose line formats keeps every field formatting. */
  lemma AllDisplaySnoc(fields: seq<Field>, f: Field)
    requires AllDisplay(fields) && DisplayField(f).Ok?
    ensures AllDisplay(fields + [f])
  {
    var ext := fields + [f];
    forall j | 0 <= j < |ext| ensures DisplayField(ext[j]).Ok? {
      if j < |fields| {
        assert ext[j] == fields[j];
      }
    }
  }

  /** Writing one more line extends the text by that line and a newline. */
  lemma TerminatedSnoc(lines: seq<string>, line: string)
    ensures Terminated(lines + [line], Newline) == Terminated(lines, Newline) + line + "\n"
  {
    TerminatedAppend(lines, [line], Newline);
    assert [line][1..] == [];
  }

  /** No failing field precedes the first failing one. */
  lemma FirstFailureIsFirst(fields: seq<Field>, first: nat, i: nat)
    requires FirstFailure(fields, first)
    requires i < |fields| && DisplayField(fields[i]).Err?
    ensures first <= i
  {
  }

  /** At most one position is the first failing field. */
  lemma FirstFailureUnique(fields: seq<Field>, i: nat)
    requires FirstFailure(fields, i)
    ensures forall j: nat :: FirstFailure(fields, j) ==> j == i
  {
  }

  /** No target name holds a newline. */
  lemma TargetNamesAreOneLine(t: string)
    requires t in TargetNames
    ensures Newline !in t
  {
  }

  /** No translated type name spans more than one line. */
  lemma TypeNameIsOneLine(tag: string)
    requires ConvertToTs(tag).Ok?
    ensures Newline !in ConvertToTs(tag).value
  {
    var t := ConvertToTs(tag).value;
    if t in TargetNames {
      TargetNamesAreOneLine(t);
    } else {
      var e := t[..|t| - 2];
      TargetNamesAreOneLine(e);
      assert t == e + "[]";
    }
  }

  /** None of `lines` holds a newline. */
  predicate NoNewlines(lines: seq<string>) {
    forall i :: 0 <= i < |lines| ==> Newline !in lines[i]
  }

  lemma NoNewlinesAppend(a: seq<string>, b: seq<string>)
    requires NoNewlines(a) && NoNewlines(b)
    ensures NoNewlines(a + b)
  {
    forall i | 0 <= i < |a + b| ensures Newline !in (a + b)[i] {
      if i >= |a| {
        assert (a + b)[i] == b[i - |a|];
      }
    }
  }

  lemma PreambleIsOneLine()
    ensures NoNewlines(PreambleLines)
  {
    forall i | 0 <= i < |PreambleLines| ensures Newline !in PreambleLines[i] {
      var l := PreambleLines[i];
      forall j | 0 <= j < |l| ensures l[j] != Newline {}
    }
  }

  /** The heading lines are single lines when the definition name is. */
  lemma HeadingIsOneLine(name: string)
    requires Newline !in name
    ensures NoNewlines(Heading(name))
  {
    var id := InterfaceName(name);
    InterfaceNameKeepsOut(name, Newline);
    var h := HeaderLine(id);
    assert Newline !in h by {
      var left, right := "interface ", " {";
      assert Newline !in left && Newline !in right;
      assert h == left + id + right;
    }
    PreambleIsOneLine();
    NoNewlinesAppend(PreambleLines, [h]);
  }

  /** Member lines are single lines when the field names are. */
  lemma {:induction false} MembersAreOneLine(fields: seq<Field>)
    requires AllDisplay(fields)
    requires forall i :: 0 <= i < |fields| ==> Newline !in fields[i].name
    ensures NoNewlines(DisplayAll(fields))
    decreases |fields|
  {
    if |fields| > 0 {
      var line := DisplayField(fields[0]).value;
      AllDisplayTail(fields);
      assert forall i :: 0 <= i < |fields| - 1 ==> fields[1..][i] == fields[i + 1];
      MembersAreOneLine(fields[1..]);
      MemberLineIsOneLine(fields[0], line);
      NoNewlinesAppend([line], DisplayAll(fields[1..]));
    }
  }

  /** A member line is a single line when the field name is. */
  lemma MemberLineIsOneLine(f: Field, line: string)
    requires DisplayField(f) == Ok(line) && Newline !in f.name
    ensures Newline !in line
  {
    TypeNameIsOneLine(f.deType);
    var t := ConvertToTs(f.deType).value;
    var colon, semi := ": ", ";";
    assert Newline !in colon && Newline !in semi;
    assert line == f.name + colon + t + semi;
  }

  /** Read back line by line, a rendered definition whose names hold no newline is the
      five preamble lines, the header, exactly one member line per field in the input
      order (none dropped, reordered or merged), the closing brace, and nothing after
      the final newline. */
  lemma {:induction false} RenderedLines(d: Definition)
    requires Render(d).Ok?
    requires Newline !in d.name
    requires forall i :: 0 <= i < |d.fields| ==> Newline !in d.fields[i].name
    ensures Split(Render(d).value, Newline) == Heading(d.name) + DisplayAll(d.fields) + [ClosingLine, ""]
  {
    var lines := Heading(d.name) + DisplayAll(d.fields) + [ClosingLine];
    HeadingIsOneLine(d.name);
    MembersAreOneLine(d.fields);
    NoNewlinesAppend(Heading(d.name), DisplayAll(d.fields));
    assert NoNewlines([ClosingLine]);
    NoNewlinesAppend(Heading(d.name) + DisplayAll(d.fields), [ClosingLine]);
    SplitTerminated(lines, Newline);
    assert lines + [""] == Heading(d.name) + DisplayAll(d.fields) + [ClosingLine, ""];
  }

  /** An example definition: `azure-indexer` with a string key and a
      collection of strings. */
  function AzureIndexerDefinition(): Definition {
    Definition("azure-indexer", [
      Field("PartitionKey", "Edm.String"),
      Field("Tags", CollectionPrefix + "Edm.String" + ")")
    ])
  }

  /** The example definition renders to the preamble, `interface
      AzureIndexer {`, `PartitionKey: string;`, `Tags: string[];` and `}`. */
  lemma AzureIndexerRendering()
    ensures Render(AzureIndexerDefinition()) == Ok(Terminated(
      PreambleLines + ["interface AzureIndexer {", "PartitionKey: string;", "Tags: string[];", "}"], Newline))
  {
    var d := AzureIndexerDefinition();
    var head := PreambleLines + ["interface AzureIndexer {"];
    var members := ["PartitionKey: string;", "Tags: string[];"];
    AzureIndexerHeading();
    AzureIndexerMembers();
    RenderFromParts(d, head, members);
    ExampleLines(head, members);
  }

  lemma RenderFromParts(d: Definition, head: seq<string>, members: seq<string>)
    requires Heading(d.name) == head
    requires AllDisplay(d.fields) && DisplayAll(d.fields) == members
    ensures Render(d) == Ok(Terminated(head + members + [ClosingLine], Newline))
  {
  }

  lemma ExampleLines(head: seq<string>, members: seq<string>)
    requires head == PreambleLines + ["interface AzureIndexer {"]
    requires members == ["PartitionKey: string;", "Tags: string[];"]
    ensures head + members + [ClosingLine]
         == PreambleLines + ["interface AzureIndexer {", "PartitionKey: string;", "Tags: string[];", "}"]
  {
  }

  lemma AzureIndexerHeading()
    ensures Heading(AzureIndexerDefinition().name) == PreambleLines + ["interface AzureIndexer {"]
  {
    AzureIndexerExample();
    HeaderSpelling();
  }

  lemma HeaderSpelling()
    ensures HeaderLine("AzureIndexer") == "interface AzureIndexer {"
  {
    var h := HeaderLine("AzureIndexer");
    forall i | 0 <= i < |h| ensures h[i] == "interface AzureIndexer {"[i] {}
  }

  lemma AzureIndexerMembers()
    ensures AllDisplay(AzureIndexerDefinition().fields)
    ensures DisplayAll(AzureIndexerDefinition().fields) == ["PartitionKey: string;", "Tags: string[];"]
  {
    var fields := AzureIndexerDefinition().fields;
    PartitionKeyMember();
    TagsMember();
    TwoMembers(fields[0], fields[1], "PartitionKey: string;", "Tags: string[];");
    assert fields == [fields[0], fields[1]];
  }

  lemma TwoMembers(f0: Field, f1: Field, l0: string, l1: string)
    requires DisplayField(f0) == Ok(l0) && DisplayField(f1) == Ok(l1)
    ensures AllDisplay([f0, f1]) && DisplayAll([f0, f1]) == [l0, l1]
  {
    assert [f0, f1][1..] == [f1];
    assert [f1][1..] == [];
  }

  lemma PartitionKeyMember()
    ensures DisplayField(Field("PartitionKey", "Edm.String")) == Ok("PartitionKey: string;")
  {
    KnownPrimitives();
    assert !StartsWith("Edm.String", CollectionPrefix) by {
      assert "Edm.String"[0] != CollectionPrefix[0];
    }
    LineSpelling();
  }

  lemma TagsMember()
    ensures DisplayField(Field("Tags", CollectionPrefix + "Edm.String" + ")")) == Ok("Tags: string[];")
  {
    StringCollectionExample();
    LineSpelling();
  }

  lemma LineSpelling()
    ensures "PartitionKey" + ": " + "string" + ";" == "PartitionKey: string;"
    ensures "Tags" + ": " + "string[]" + ";" == "Tags: string[];"
  {
    var a := "PartitionKey" + ": " + "string" + ";";
    forall i | 0 <= i < |a| ensures a[i] == "PartitionKey: string;"[i] {}
    var b := "Tags" + ": " + "string[]" + ";";
    forall i | 0 <= i < |b| ensures b[i] == "Tags: string[];"[i] {}
  }

  /** A field whose tag is neither in the table nor a collection renders with `any`
      instead of failing. */
  lemma UnknownTypeLine(name: string, tag: string)
    requires tag !in PrimitiveTable && !StartsWith(tag, CollectionPrefix)
    ensures DisplayField(Field(name, tag)) == Ok(name + ": any;")
  {
    assert name + ": " + "any" + ";" == name + ": any;";
  }

  /** The byte string the source writes first, as it spells it. */
  const PreambleBytes: string := "type Coordinates = {\ntype: string;\ncoordinates: number[];\n}\n\n"

  /** The preamble is the byte string the source writes first. The offsets 0, 21, 35,
      58 and 60 used below are the running sums of `|PreambleLines[k]| + 1`: where each
      line of the preamble, with its newline, starts in the bytes. */
  lemma PreambleIsSourceLiteral()
    ensures Preamble == PreambleBytes
  {
    PreambleTerminated();
    PreambleBytesLine0();
    PreambleBytesLine1();
    PreambleBytesLine2();
    PreambleBytesLine3();
    PreambleBytesLine4();
    FiveLines(PreambleBytes, Preamble, PreambleLines, 21, 35, 58, 60);
  }

  /** A text cut at four offsets into the five terminated lines that make up `p` is `p`. */
  lemma FiveLines(t: string, p: string, ls: seq<string>, a: nat, b: nat, c: nat, d: nat)
    requires |ls| == 5 && a <= b <= c <= d <= |t|
    requires p == ls[0] + "\n" + ls[1] + "\n" + ls[2] + "\n" + ls[3] + "\n" + ls[4] + "\n"
    requires t[..a] == ls[0] + "\n" && t[a..b] == ls[1] + "\n" && t[b..c] == ls[2] + "\n"
    requires t[c..d] == ls[3] + "\n" && t[d..] == ls[4] + "\n"
    ensures p == t
  {
    assert t == t[..a] + t[a..b] + t[b..c] + t[c..d] + t[d..];
  }

  /** Each line of the preamble, with its newline, at its offset in the bytes. */
  lemma PreambleBytesLine0()
    ensures PreambleBytes[0..21] == PreambleLines[0] + "\n"
  {
    var line := PreambleLines[0];
    forall k | 0 <= k < 20 ensures PreambleBytes[0 + k] == line[k] {}
    SliceIsLine(PreambleBytes, 0, line);
  }

  lemma PreambleBytesLine1()
    ensures PreambleBytes[21..35] == PreambleLines[1] + "\n"
  {
    var line := PreambleLines[1];
    forall k | 0 <= k < 13 ensures PreambleBytes[21 + k] == line[k] {}
    SliceIsLine(PreambleBytes, 21, line);
  }

  lemma PreambleBytesLine2()
    ensures PreambleBytes[35..58] == PreambleLines[2] + "\n"
  {
    var line := PreambleLines[2];
    forall k | 0 <= k < 22 ensures PreambleBytes[35 + k] == line[k] {}
    SliceIsLine(PreambleBytes, 35, line);
  }

  lemma PreambleBytesLine3()
    ensures PreambleBytes[58..60] == PreambleLines[3] + "\n"
  {
    var line := PreambleLines[3];
    forall k | 0 <= k < 1 ensures PreambleBytes[58 + k] == line[k] {}
    SliceIsLine(PreambleBytes, 58, line);
  }

  lemma PreambleBytesLine4()
    ensures PreambleBytes[60..61] == PreambleLines[4] + "\n"
  {
    SliceIsLine(PreambleBytes, 60, PreambleLines[4]);
  }

  /** A slice that agrees with `line` character by character, then holds a newline. */
  lemma SliceIsLine(text: string, lo: nat, line: string)
    requires lo + |line| < |text| && text[lo + |line|] == Newline
    requires forall k :: 0 <= k < |line| ==> text[lo + k] == line[k]
    ensures text[lo..lo + |line| + 1] == line + "\n"
  {
  }

  /** The preamble as its five lines, each followed by a newline. */
  lemma PreambleTerminated()
    ensures Preamble == PreambleLines[0] + "\n" + PreambleLines[1] + "\n" + PreambleLines[2] + "\n"
                      + PreambleLines[3] + "\n" + PreambleLines[4] + "\n"
  {
    var p := PreambleLines;
    assert p[1..][1..] == p[2..];
    assert p[2..][1..] == p[3..];
    assert p[3..][1..] == p[4..];
    assert p[4..][1..] == [];
  }

  /** A definition with an unclosed collection tag in any field yields no declaration at
      all: the render aborts at that field or at an earlier malformed one. */
  lemma {:induction false} UnclosedCollectionAborts(d: Definition, i: nat, inner: string)
    requires i < |d.fields|
    requires d.fields[i].deType == CollectionPrefix + inner && ')' !in inner
    ensures Render(d).Err?
    ensures Render(d).error.index <= i
  {
    UnclosedCollectionFails(inner);
    var f := d.fields[i];
    assert DisplayField(f).Err?;
    assert !AllDisplay(d.fields);
    var r := Render(d);
    FirstFailureIsFirst(d.fields, r.error.index, i);
  }
}
