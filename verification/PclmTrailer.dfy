/** The end of a PCLm file: its cross-reference section and trailer, and what a reader makes of the whole
    file because of them. */
module PclmTrailer {
  import opened Common
  import opened PdfText
  import opened PdfReader
  import opened PclmTexts

  /** What objects 1, 2, 3, ... of the file hold. */
  function Bodies(kids: seq<nat>, objects: seq<string>): seq<string> {
    [CatalogText(), PageTreeText(kids)] + objects
  }

  /** Offsets as the offset table holds them. */
  function Wrapped(offsets: seq<nat>): (r: seq<int>)
    ensures |r| == |offsets|
  {
    seq(|offsets|, k requires 0 <= k < |offsets| => Wrap32(offsets[k]))
  }

  /** The subsections the trailer writes for an offset table: the free entry, objects 3 and up, and the two
      fixed objects. */
  function Sections(table: seq<int>): seq<Subsection>
    requires |table| >= 4
  {
    var n := |table|;
    [Subsection(0, [Free]),
     Subsection(3, seq(n - 4, k requires 0 <= k < n - 4 => InUse(table[k + 1]))),
     Subsection(1, [InUse(table[n - 3]), InUse(table[n - 2])])]
  }

  /** What follows the section: the trailer, and the position of the section. */
  function AfterSection(size: nat, start: int): string {
    TrailerStart() + SizeText(size) + RootText() + TrailerEnd(start)
  }

  /** Everything from the cross-reference section on. */
  function EndText(table: seq<int>): string
    requires |table| >= 4
  {
    SectionText(Sections(table)) + AfterSection(|table| - 1, table[|table| - 1])
  }

  lemma SectionOfThree(before: string, a: Subsection, b: Subsection, c: Subsection)
    ensures before + "xref\n" + SubsectionText(a) + SubsectionText(b) + SubsectionText(c)
         == before + SectionText([a, b, c])
  {
    hide SubsectionText;
    var x, y, z := SubsectionText(a), SubsectionText(b), SubsectionText(c);
    assert [a, b, c][1..] == [b, c] && [b, c][1..] == [c] && [c][1..] == [];
    assert SubsectionsText([c]) == z + "" == z;
    assert SubsectionsText([b, c]) == y + z;
    assert SubsectionsText([a, b, c]) == x + (y + z);
    assert before + "xref\n" + x + y + z == before + ("xref\n" + (x + (y + z)));
  }

  /** The entry for object n stands where the trailer puts it. */
  lemma LookupSections(table: seq<int>, n: nat)
    requires |table| >= 4
    ensures var size := |table| - 1;
            Lookup(Sections(table), n) ==
            if n == 0 then FreeObject
            else if n >= size then Missing
            else if n < 3 then At(table[size - 3 + n]) else At(table[n - 2])
  {
    var subs := Sections(table);
    assert subs[1..] == [subs[1], subs[2]] && subs[1..][1..] == [subs[2]] && subs[1..][1..][1..] == [];
    if n >= 1 {
      assert Lookup(subs, n) == Lookup([subs[1], subs[2]], n);
      if n < 3 || n >= |table| - 1 {
        assert Lookup([subs[1], subs[2]], n) == Lookup([subs[2]], n);
        if n < 3 {
          assert subs[2].entries[n - 1] == InUse(table[|table| - 4 + n]);
        } else {
          assert Lookup([subs[2]], n) == Lookup([], n);
        }
      }
    }
  }

  /** The objects stand at the offsets as the trailer finds them: objects 3, 4, ... from index 1, then the
      catalog and the page tree; last comes the cross-reference section. */
  ghost predicate Standing(file: string, offsets: seq<nat>, all: seq<string>) {
    && |all| >= 2 && |offsets| >= |all| + 1
    && (forall k | 0 <= k < |offsets| :: offsets[k] <= |file|)
    && TextAt(file, offsets[|all| - 1], ObjText(1) + all[0])
    && TextAt(file, offsets[|all|], ObjText(2) + all[1])
    && (forall k | 1 <= k < |all| - 1 :: TextAt(file, offsets[k], ObjText(k + 2) + all[k + 1]))
  }

  lemma StandsAt(file: string, offsets: seq<nat>, all: seq<string>, n: nat)
    requires Standing(file, offsets, all) && 1 <= n <= |all|
    ensures TextAt(file, offsets[if n < 3 then |all| - 2 + n else n - 2], ObjText(n) + all[n - 1])
  {
    hide TextAt, ObjText;
    if n >= 3 {
      assert TextAt(file, offsets[n - 2], ObjText(n - 2 + 2) + all[n - 2 + 1]);
    }
  }

  // ----- reading it -----

  lemma TailShape(size: nat, end: string)
    ensures TrailerStart() + SizeText(size) + RootText() + end
         == "%============= PCLm: " + "File Trailer" + "\n"
            + ("trailer\n<<\n/Size " + (Dec(size) + ("\n/Root " + (Dec(1) + (" 0 R\n>>\n" + end)))))
  {
    hide Dec;
    assert CATALOG_OBJ_NUMBER == 1;
  }

  lemma AfterSectionReads(size: nat, start: int)
    ensures Digits(AfterSection(size, start)) == 0
    ensures ReadTrailer(AfterSection(size, start)) == Some(Trailer(size, 1))
  {
    hide Dec, ReadTrailer, TrailerEnd;
    TailShape(size, TrailerEnd(start));
    TrailerReads("%============= PCLm: " + "File Trailer", Trailer(size, 1), TrailerEnd(start));
  }

  lemma SmallOffsets(offsets: seq<nat>, end: nat)
    requires |offsets| >= 4 && end < INT32 && forall k | 0 <= k < |offsets| :: offsets[k] <= end
    ensures forall k | 0 <= k < |offsets| :: Wrapped(offsets)[k] == offsets[k]
    ensures forall sub, e | sub in Sections(Wrapped(offsets)) && e in sub.entries :: TenDigits(e)
  {
    assert INT32 < Power10(10) by { TenPower(); }
    forall k | 0 <= k < |offsets|
      ensures Wrapped(offsets)[k] == offsets[k]
    {
      Wrap32Means(offsets[k]);
    }
    hide Wrap32, Power10;
  }

  lemma TenPower()
    ensures Power10(10) == 10000000000
  {
    assert Power10(5) == 100000;
  }

  /** The section is found where it was said to stand. */
  lemma XrefReads(before: string, offsets: seq<nat>)
    requires |offsets| >= 4 && offsets[|offsets| - 1] == |before| < INT32
    requires forall k | 0 <= k < |offsets| :: offsets[k] <= |before|
    ensures var table := Wrapped(offsets);
            ReadXref(before + EndText(table)) == Some(Xref(|before|, Sections(table), Trailer(|table| - 1, 1)))
  {
    hide Sections, ReadSection, ReadTrailer, ReadStart, AfterSection, SectionText, Wrapped, TenDigits;
    var table := Wrapped(offsets);
    SmallOffsets(offsets, |before|);
    var file := before + EndText(table);
    StartOfEnd(before, table);
    var rest := AfterSection(|table| - 1, |before|);
    assert file[|before|..] == SectionText(Sections(table)) + rest;
    AfterSectionReads(|table| - 1, |before|);
    SectionReads(Sections(table), rest);
  }

  lemma StartOfEnd(before: string, table: seq<int>)
    requires |table| >= 4
    ensures ReadStart(before + EndText(table)) == if table[|table| - 1] >= 0 then Some(table[|table| - 1]) else None
  {
    hide SectionText, Sections, TrailerStart, SizeText, RootText, TrailerEnd, ReadStart;
    var head := SectionText(Sections(table)) + (TrailerStart() + SizeText(|table| - 1) + RootText());
    assert before + EndText(table) == (before + head) + TrailerEnd(table[|table| - 1]);
    StartReads(before + head, table[|table| - 1]);
  }

  lemma BodyIsRead(before: string, offsets: seq<nat>, all: seq<string>, n: nat)
    requires |offsets| == |all| + 2 && Standing(before, offsets, all) && |before| < INT32 && 1 <= n <= |all|
    ensures Holds(before + EndText(Wrapped(offsets)), Sections(Wrapped(offsets)), n, all[n - 1])
  {
    hide TextAt, ObjText, Sections, Lookup, EndText, ObjectAt, Wrapped;
    var table := Wrapped(offsets);
    SmallOffsets(offsets, |before|);
    LookupSections(table, n);
    var k := if n < 3 then |all| - 2 + n else n - 2;
    StandsAt(before, offsets, all, n);
    TextAtPrefix(before, before + EndText(table), offsets[k], ObjText(n) + all[n - 1]);
    ObjectReads(before + EndText(table), offsets[k], n, all[n - 1]);
  }

  /** The file laid out as the writer does it, with `all[n - 1]` the body of object n, is what the standard
      asks for as long as the section starts below 2^31; from there on, a reader does not find it. */
  lemma FileIsRead(before: string, offsets: seq<nat>, all: seq<string>)
    requires |offsets| == |all| + 2 && offsets[|all| + 1] == |before| && Standing(before, offsets, all)
    ensures var file := before + EndText(Wrapped(offsets));
            && (ReadStart(file) == Some(|before|) <==> |before| < INT32)
            && (|before| < INT32 ==> ReadsAs(file, |before|, all))
  {
    hide Holds, ReadXref, Standing, EndText, Sections, Lookup, ReadStart;
    var table := Wrapped(offsets);
    StandingMeans(before, offsets, all);
    StartOfEnd(before, table);
    Wrap32Means(|before|);
    if |before| < INT32 {
      XrefReads(before, offsets);
      LookupSections(table, 0);
      forall i | 0 <= i < |all|
        ensures Holds(before + EndText(table), Sections(table), i + 1, all[i])
      {
        BodyIsRead(before, offsets, all, i + 1);
      }
      forall n: nat | |all| < n
        ensures Lookup(Sections(table), n) == Missing
      {
        LookupSections(table, n);
      }
    }
  }

  lemma StandingMeans(file: string, offsets: seq<nat>, all: seq<string>)
    requires Standing(file, offsets, all)
    ensures |all| >= 2 && forall k | 0 <= k < |offsets| :: offsets[k] <= |file|
  {
    hide TextAt;
  }

  /** A section at 2^31, whatever stands before it: the writer's 32-bit number is negative, and no start is read. */
  lemma LateStartFails(before: string)
    ensures Wrap32(INT32) == -0x8000_0000
    ensures ReadStart(before + TrailerEnd(Wrap32(INT32))) == None
  {
    StartReads(before, Wrap32(INT32));
    hide ReadStart, TrailerEnd;
  }
}
