# parse_azure_indexer — a Dafny model of the TypeScript renderer

parse_azure_indexer reads an Azure Cognitive Search index definition. That is a
name plus an ordered list of fields, each with an OData type tag such as
`Edm.String` or `Collection(Edm.Int32)`. From it the program writes a TypeScript
declaration:

1. a fixed `Coordinates` type block;
2. the line `interface <Name> {`;
3. one `name: type;` line per field, in input order;
4. a closing `}`.

This project models that core, `src/internals.rs`, as pure functions over
immutable data, and proves what the code promises about it.

The model is split into these modules:

- `Results` (results.dfy): `Option` and `Result`.
- `Text` (text.dfy): the standard-library string operations the code leans on:
  - `starts_with`;
  - `rfind` (`LastIndexOf`);
  - `split` on `-` (`Split`), with `Join` as its inverse;
  - `collect::<String>()` (`Concat`).

  It also holds `Terminated`, the model's own helper for newline-ended lines. It
  stands for the `\n` that `format!("{}\n", v)` and the `write!` calls append to
  each line.
- `Schema` (schema.dfy): the `Definiton` and `Field` records, as they are once
  deserialised.
- `TypeMapper` (type_mapper.dfy): `parse_str`, `parse_collection` and
  `convert_to_ts`.
  - The panic of `rfind(")").unwrap()` on a collection tag with no `)` becomes the
    explicit error `MissingCloseParen(tag)`.
- `Identifier` (identifier.dfy): `make_ascii_titlecase`, and the
  split / title-case / concatenate chain that turns the definition name into the
  interface identifier.
- `Renderer` (render.dfy): `Display for Field` and `write_to_file`.
  - `Render` is the whole text that `write_to_file` leaves in the file.
  - `WriteToFile` follows the source's loop, appending to a buffer, and is proved
    equal to `Render`.
  - When a field's line cannot be formatted (the panic), both return
    `Panicked(written, index, tag)`. `written` is exactly what the file held at
    that moment: the preamble, the header and the lines of the earlier fields. The
    failing line is formatted before anything of it is written.

The inner tag of a collection is looked up in the primitive table only (through
`parse_str`, not `convert_to_ts`). So nested collections are not resolved:
`Collection(Collection(Edm.String))` becomes `any[]`. The model follows the code
here.

`rfind(")").unwrap()` panics on a collection tag with no `)`. The model keeps that
as an error that aborts the render. It is never turned into a fallback type.

## Model

| member | source | states |
|---|---|---|
| TypeMapper.ParseStr | src/internals.rs:69-80 | the result is `any` exactly when the tag is not one of the eight tabled tags, and it is always one of the seven target names |
| TypeMapper.KnownPrimitives | src/internals.rs:71-79 | each of the eight known tags maps to its TypeScript name (string, Coordinates, number ×3, Date, boolean, {}), and an unknown tag such as `Edm.Unsupported` converts to `any` without error |
| TypeMapper.ParseCollection | src/internals.rs:83-88 | fails exactly when no `)` follows the first eleven characters, and the error names the tag; otherwise the result is an array of a target name, and it is the translation of the text between the prefix and the LAST `)` with `[]` appended |
| TypeMapper.ConvertToTs | src/internals.rs:62-67 | tags starting with `Collection(` are handled by the collection parser and all others by the table lookup; fails exactly for a collection tag with no `)`; every success is a target name or an array of one |
| TypeMapper.CollectionCutsAtLastParen | src/internals.rs:84-87 | for any inner text and any trailing text free of `)`, `Collection(inner)rest` converts to the inner text's table lookup plus `[]`: trailing text is dropped and the cut is at the last `)` |
| TypeMapper.KnownCollection | src/internals.rs:83-88 | a collection of any of the eight tabled tags is an array of its tabled name |
| TypeMapper.StringCollectionExample | src/internals.rs:83-88 | `Collection(Edm.String)` converts to `string[]` |
| TypeMapper.NestedCollectionIsAnyArray | src/internals.rs:87 | a collection of a collection, of whatever inner text, converts to `any[]`: the inner tag is not resolved recursively |
| TypeMapper.CollectionTagIsNotPrimitive | src/internals.rs:70-79 | no tag beginning with `C` (so no collection tag) is in the primitive table |
| TypeMapper.TableTagsAreEdm | src/internals.rs:71-78 | every tabled tag begins with `E` (the `Edm.` namespace) |
| TypeMapper.UnclosedCollectionFails | src/internals.rs:85 | `Collection(` followed by text with no `)` is the error `MissingCloseParen` carrying the tag, never a type name |
| TypeMapper.UnclosedCollectionExample | src/internals.rs:85 | `Collection(Edm.String`, which lacks its `)`, is an error |
| Identifier.UpperAscii | src/internals.rs:135 | `a`–`z` become the matching `A`–`Z` (code point minus 32) and every other character is unchanged |
| Identifier.MakeAsciiTitlecase | src/internals.rs:131-137 | the length is kept, the first character is upper-cased, and every later character is kept verbatim |
| Identifier.TitlecaseIdempotent | src/internals.rs:131-137 | title-casing a title-cased string changes nothing |
| Identifier.TitlecaseKeepsTitled | src/internals.rs:131-137 | a string whose first character ASCII upper-casing leaves alone is returned unchanged |
| Identifier.TitlecaseExamples | src/internals.rs:119-137 | the empty string gives the empty string, and `hello world` gives `Hello world` (only the first character changes) |
| Identifier.TitlecaseAll | src/internals.rs:99 | one title-cased segment per segment, in order |
| Identifier.InterfaceName | src/internals.rs:96-100 | the identifier contains no `-` |
| Identifier.InterfaceNameKeepsOut | src/internals.rs:96-100 | any character that is not an upper-case letter appears in the identifier only if it appears in the name |
| Identifier.InterfaceNameOfSegment | src/internals.rs:96-100 | a name without `-` gives its own title-cased form |
| Identifier.InterfaceNameSplitsAtHyphen | src/internals.rs:96-100 | the identifier of `a-b` is the identifier of `a` followed by that of `b`; with the previous row this fixes the identifier of every name |
| Identifier.EmptySegmentsVanish | src/internals.rs:96-100 | empty segments contribute nothing: `a--b` and `a-b` give the same identifier |
| Identifier.AzureIndexerExample | src/internals.rs:96-100 | `azure-indexer` gives `AzureIndexer` |
| Identifier.InterfaceNameIdempotent | src/internals.rs:96-100 | deriving an identifier from an identifier gives it back |
| Text.LastIndexOf | src/internals.rs:85 | `None` exactly when the character is absent; otherwise an index holding the character with no occurrence after it |
| Text.LastIndexOfIs | src/internals.rs:85 | an occurrence with none after it is the one found |
| Text.Split | src/internals.rs:98 | at least one piece; no piece holds the separator; every character of a piece comes from the input; an input without the separator is its own single piece |
| Text.JoinSplit | src/internals.rs:98 | joining the pieces with the separator gives back the input, so no character is lost or added |
| Text.SplitJoin | src/internals.rs:98 | splitting the join of separator-free pieces gives back those pieces |
| Text.SplitAtSeparator | src/internals.rs:98 | splitting `a + sep + b` is splitting `a` followed by splitting `b` |
| Renderer.DisplayField | src/internals.rs:54-58 | the line fails exactly when the tag's conversion fails; otherwise it is `name: type;` with the converted type |
| Renderer.UnknownTypeLine | src/internals.rs:54-79 | a field whose tag is neither tabled nor a collection renders as `name: any;` |
| Renderer.DisplayAll | src/internals.rs:103-106 | one member line per field, the line at each position being that field's `name: type;` |
| Renderer.MemberBlock | src/internals.rs:103-106 | succeeds exactly when every field formats, giving one newline-ended line per field in order; otherwise it stops at the first failing field, reports that field's position and tag, and holds exactly the lines of the fields before it |
| Renderer.Render | src/internals.rs:92-110 | succeeds exactly when every field formats, giving the preamble lines, `interface <Name> {`, one member line per field in order and `}`, each followed by a newline; otherwise it reports the first failing field and its tag, with the text written before it |
| Renderer.WriteToFile | src/internals.rs:92-110 | the step-by-step writing loop produces exactly the `Render` text, or the same abort at the first failing field |
| Renderer.PreambleIsSourceLiteral | src/internals.rs:93 | the preamble lines, each ended by a newline, are byte for byte the static string the source writes first |
| Renderer.HeadText | src/internals.rs:93-101 | the static preamble bytes followed by the header are the preamble lines and `interface <Name> {`, each ended by a newline |
| Renderer.RenderedLines | src/internals.rs:92-110 | when no name holds a newline, reading the output back line by line gives the five preamble lines, the header, exactly the member lines of the fields in input order, `}`, and nothing after the final newline |
| Renderer.MembersAreOneLine | src/internals.rs:103-106 | every member line is a single line when the field names are |
| Renderer.HeadingIsOneLine | src/internals.rs:93-101 | the preamble and header lines are single lines when the definition name is |
| Renderer.TypeNameIsOneLine | src/internals.rs:62-88 | no converted type name holds a newline |
| Renderer.AzureIndexerRendering | src/internals.rs:92-110 | the definition `azure-indexer` with `PartitionKey: Edm.String` and `Tags: Collection(Edm.String)` renders to the preamble, `interface AzureIndexer {`, `PartitionKey: string;`, `Tags: string[];` and `}` |
| Renderer.UnclosedCollectionAborts | src/internals.rs:85 | a definition in which any field has an unclosed collection tag produces no declaration; the render aborts at that field or at an earlier malformed one |

Definitions without a contract of their own, which the rows above build on:

- `Schema.Field` and `Schema.Definition` are the `Field` and `Definiton` records (src/internals.rs:36-50).
- `Text.StartsWith` is `str::starts_with` (src/internals.rs:63).
- `Text.Concat` is `collect::<String>()` over the title-cased segments (src/internals.rs:100).
- `Renderer.HeaderLine` is the `interface {} {{` line (src/internals.rs:101).
- `Renderer.PreambleLines` and `Renderer.Preamble` are the static block (src/internals.rs:93).
- `Renderer.Heading` is the lines written before the first field: the static block and the header (src/internals.rs:93-101).
- `Renderer.ClosingLine` is the closing `}` (src/internals.rs:108).
- `TypeMapper.PrimitiveTable` is the match table of `parse_str` (src/internals.rs:70-79).

## Left out

- `parse_json` (src/internals.rs:114-117): JSON deserialisation through a library. The model starts from an already built `Definition`. Extra JSON keys such as `searchable` or `analyzer` are not represented.
- src/main.rs, src/args.rs, src/az_metadata.rs: command-line parsing, configuration files and printing. They are I/O and library calls around the core.
- The `File` handle and the `.expect` calls on write failures in `write_to_file`. Writing is modelled as producing text, and a write failure is not modelled.
- Identifier.UpperAscii, Identifier.MakeAsciiTitlecase: upper-case ASCII `a`–`z` only. Rust's `char::to_uppercase` also maps other letters (`é` into `É`) and can expand one character into several (`ß` into `SS`).
- Identifier.InterfaceNameKeepsOut: holds only under the ASCII limit above. With the full `to_uppercase` the name `ŉ` gives `ʼN`, and `ʼ` is not in the name.
- Identifier.TitlecaseKeepsTitled: "upper-casing leaves the first character alone" is judged by the ASCII-only `UpperAscii`. Rust changes `é`, which the model leaves alone.
- Rust strings are UTF-8 and the source slices them by byte offset. The model indexes by character. The two agree here because the prefix `Collection(` and `)` are ASCII.
- The code does not check that the definition name is non-empty. The model does not require it either: an empty name gives the identifier `""`.
