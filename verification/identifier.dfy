/** The interface name derived from a definition name (`make_ascii_titlecase` and the
    split / map / collect chain at the head of `Definiton::write_to_file` in
    src/internals.rs). Upper-casing is restricted to ASCII letters. */
module Identifier {
  import opened Text

  /** The segment separator in definition names. */
  const Hyphen: char := '-'

  /** ASCII upper-casing of one character: `a`..`z` become `A`..`Z`, all others stay. */
  function UpperAscii(c: char): (u: char)
    ensures 'a' <= c <= 'z' ==> 'A' <= u <= 'Z' && u as int == c as int - 32
    ensures !('a' <= c <= 'z') ==> u == c
  {
    if 'a' <= c <= 'z' then (c as int - 32) as char else c
  }

  /** A character that upper-casing leaves alone. */
  predicate IsUpperFixed(c: char) {
    UpperAscii(c) == c
  }

  /** `make_ascii_titlecase`: upper-case the first character and keep the rest verbatim. */
  function MakeAsciiTitlecase(s: string): (r: string)
    ensures |r| == |s|
    ensures |s| > 0 ==> r[0] == UpperAscii(s[0])
    ensures forall i :: 1 <= i < |s| ==> r[i] == s[i]
  {
    if |s| == 0 then "" else [UpperAscii(s[0])] + s[1..]
  }

  /** Title-casing every segment of `parts`, in order (the `map` step). */
  function TitlecaseAll(parts: seq<string>): (r: seq<string>)
    ensures |r| == |parts|
    ensures forall i :: 0 <= i < |parts| ==> r[i] == MakeAsciiTitlecase(parts[i])
  {
    seq(|parts|, i requires 0 <= i < |parts| => MakeAsciiTitlecase(parts[i]))
  }

  /** The interface identifier: split the name at every `-`, title-case each segment and
      concatenate the results without a separator. */
  function InterfaceName(name: string): (id: string)
    ensures Hyphen !in id
  {
    var segments := Split(name, Hyphen);
    NoCharInTitledSegments(segments, Hyphen);
    Concat(TitlecaseAll(segments))
  }

  /** Title-casing cannot produce a character that is not an upper-case letter unless
      the segments already held it; in particular it never introduces a hyphen. */
  lemma {:induction false} NoCharInTitledSegments(parts: seq<string>, c: char)
    requires !('A' <= c <= 'Z')
    requires forall i :: 0 <= i < |parts| ==> c !in parts[i]
    ensures c !in Concat(TitlecaseAll(parts))
    decreases |parts|
  {
    if |parts| > 0 {
      var t := MakeAsciiTitlecase(parts[0]);
      assert c !in t by {
        if |parts[0]| > 0 {
          assert parts[0][0] != c;
          assert t == [t[0]] + parts[0][1..];
        }
      }
      NoCharInTitledSegments(parts[1..], c);
      assert TitlecaseAll(parts)[1..] == TitlecaseAll(parts[1..]);
    }
  }

  /** A character other than an upper-case letter occurs in the identifier only if it
      occurs in the name. */
  lemma {:induction false} InterfaceNameKeepsOut(name: string, c: char)
    requires !('A' <= c <= 'Z') && c !in name
    ensures c !in InterfaceName(name)
  {
    NoCharInTitledSegments(Split(name, Hyphen), c);
  }

  /** Title-casing is idempotent. */
  lemma TitlecaseIdempotent(s: string)
    ensures MakeAsciiTitlecase(MakeAsciiTitlecase(s)) == MakeAsciiTitlecase(s)
  {
  }

  /** A name whose first character is already upper case is left exactly as it is. */
  lemma TitlecaseKeepsTitled(s: string)
    requires |s| > 0 && IsUpperFixed(s[0])
    ensures MakeAsciiTitlecase(s) == s
  {
  }

  /** Empty input gives empty output; otherwise only the first character can change. */
  lemma TitlecaseExamples()
    ensures MakeAsciiTitlecase("") == ""
    ensures MakeAsciiTitlecase("hello world") == "Hello world"
  {
    assert MakeAsciiTitlecase("hello world") == [UpperAscii('h')] + "ello world";
  }

  /** The identifier of a hyphen-free name is that name title-cased. */
  lemma {:induction false} InterfaceNameOfSegment(s: string)
    requires Hyphen !in s
    ensures InterfaceName(s) == MakeAsciiTitlecase(s)
  {
    assert TitlecaseAll([s]) == [MakeAsciiTitlecase(s)];
    assert Concat([MakeAsciiTitlecase(s)]) == MakeAsciiTitlecase(s) + Concat([]);
  }

  /** The identifier of `a-b` is the identifier of `a` followed by that of `b`: with
      `InterfaceNameOfSegment` this determines the identifier of every name. */
  lemma {:induction false} InterfaceNameSplitsAtHyphen(a: string, b: string)
    ensures InterfaceName(a + [Hyphen] + b) == InterfaceName(a) + InterfaceName(b)
  {
    SplitAtSeparator(a, b, Hyphen);
    var pa, pb := Split(a, Hyphen), Split(b, Hyphen);
    assert TitlecaseAll(pa + pb) == TitlecaseAll(pa) + TitlecaseAll(pb);
    ConcatAppend(TitlecaseAll(pa), TitlecaseAll(pb));
  }

  /** Empty segments contribute nothing: a doubled hyphen reads as a single one. */
  lemma {:induction false} EmptySegmentsVanish(a: string, b: string)
    ensures InterfaceName(a + [Hyphen, Hyphen] + b) == InterfaceName(a + [Hyphen] + b)
  {
    var hb := [Hyphen] + b;
    assert a + [Hyphen, Hyphen] + b == a + [Hyphen] + hb;
    InterfaceNameSplitsAtHyphen(a, hb);
    assert InterfaceName(hb) == InterfaceName(b) by {
      assert hb == [] + [Hyphen] + b;
      InterfaceNameSplitsAtHyphen([], b);
      InterfaceNameOfSegment([]);
    }
    InterfaceNameSplitsAtHyphen(a, b);
  }

  /** An example: `azure-indexer` names the interface `AzureIndexer`. */
  lemma AzureIndexerExample()
    ensures InterfaceName("azure-indexer") == "AzureIndexer"
  {
    AzureIndexerSpelling();
    InterfaceNameSplitsAtHyphen("azure", "indexer");
    InterfaceNameOfSegment("azure");
    InterfaceNameOfSegment("indexer");
  }

  /** The character-level facts behind `AzureIndexerExample`, kept apart so that the
      verifier does not evaluate the whole pipeline on the literal. */
  lemma AzureIndexerSpelling()
    ensures "azure" + [Hyphen] + "indexer" == "azure-indexer"
    ensures MakeAsciiTitlecase("azure") + MakeAsciiTitlecase("indexer") == "AzureIndexer"
  {
    var name := "azure" + [Hyphen] + "indexer";
    forall i | 0 <= i < |name| ensures name[i] == "azure-indexer"[i] {}
    var id := MakeAsciiTitlecase("azure") + MakeAsciiTitlecase("indexer");
    forall i | 0 <= i < |id| ensures id[i] == "AzureIndexer"[i] {}
  }

  /** The first character of a concatenation of title-cased segments is one that
      upper-casing leaves alone. */
  lemma {:induction false} TitledConcatStartsUpper(parts: seq<string>)
    ensures |Concat(TitlecaseAll(parts))| > 0 ==> IsUpperFixed(Concat(TitlecaseAll(parts))[0])
    decreases |parts|
  {
    if |parts| > 0 {
      var t := TitlecaseAll(parts);
      assert t[1..] == TitlecaseAll(parts[1..]);
      if |parts[0]| == 0 {
        TitledConcatStartsUpper(parts[1..]);
      } else {
        assert Concat(t)[0] == t[0][0];
      }
    }
  }

  /** Deriving an identifier from an identifier changes nothing. */
  lemma {:induction false} InterfaceNameIdempotent(name: string)
    ensures InterfaceName(InterfaceName(name)) == InterfaceName(name)
  {
    var id := InterfaceName(name);
    InterfaceNameOfSegment(id);
    TitledConcatStartsUpper(Split(name, Hyphen));
    if |id| > 0 {
      TitlecaseKeepsTitled(id);
    }
  }
}
