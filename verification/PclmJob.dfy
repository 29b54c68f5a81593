/** Whole PCLm jobs: what a reader of the finished file finds. */
module PclmJob {
  import opened Common
  import opened PdfText
  import opened PdfReader
  import opened PclmTexts
  import opened PclmStreams
  import opened PclmTrailer
  import opened PclmReader
  import opened PclmLayout
  import opened PclmWriter

  datatype Strip = Strip(lines: nat, data: string, looksWhite: bool)

  /** How many lines a call leaves for the next one, if there was a call with more than one strip of lines. */
  function RestOf(rest: Option<int>, lines: nat, height: nat): Option<int> {
    match rest
    case Some(left) => Some(left + lines - height)
    case None => if lines > height then Some(lines - height) else None
  }

  predicate FillsStrip(rest: Option<int>, lines: nat, height: nat) {
    rest.Some? ==> rest.value <= height <= rest.value + lines
  }

  /** What one page is printed from; `blank(h)` is what compressing h white lines gives. */
  datatype PageJob = PageJob(setup: PageSetup, ticket: string, blank: nat -> string, strips: seq<Strip>)
  {
    /** What is left over before call k of the page, when `rest` was before the first one. */
    ghost function RestAt(rest: Option<int>, k: nat): Option<int>
      requires k <= |strips|
    {
      if k == 0 then rest else RestOf(RestAt(rest, k - 1), strips[k - 1].lines, setup.StripHeight())
    }

    /** Every call brings the lines that its strip still needs; how many strips come, and of how many lines, is
        open otherwise. */
    ghost predicate Feasible(rest: Option<int>) {
      && setup.Printable()
      && forall k | 0 <= k < |strips| :: FillsStrip(RestAt(rest, k), strips[k].lines, setup.StripHeight())
    }

    /** The page as it is written: once something is left over, every strip is a full one. */
    ghost function Written(rest: Option<int>): (w: PageJob)
      ensures w.setup == setup && w.ticket == ticket && w.blank == blank
      ensures |w.strips| == |strips|
    {
      this.(strips := seq(|strips|, k requires 0 <= k < |strips| =>
        strips[k].(lines := if RestAt(rest, k).Some? then setup.StripHeight() else strips[k].lines)))
    }

    /** No call brings more than one strip of lines. */
    predicate Plain() {
      setup.Printable() && forall k | 0 <= k < |strips| :: strips[k].lines <= setup.StripHeight()
    }

    predicate Adobe() { setup.color == AdobeRGB }

    /** The page writes something that uses the colour profile. */
    predicate Inked() { Adobe() && strips != [] }

    /** The page brings all the strips its setup announces. */
    predicate EnoughStrips()
      requires setup.Printable()
    {
      if strips == [] then setup.Heights() == [] else setup.StripCount() <= |strips|
    }

    predicate NoExtraStrips()
      requires setup.Printable()
    {
      strips == [] || |strips| <= setup.StripCount()
    }

    /** The strip objects the page should come out as. */
    ghost function StripBodies(): seq<string>
      requires setup.Printable()
    {
      if strips == [] then [] else MarginBodies(setup, blank) + SourceBodies(|strips|)
    }

    /** What strip k of the page should be as an image: first the white ones of the margin, which are strips of
        nothing else, then one for every call. A JPEG strip is always filled up to its full height. */
    ghost function StripImage(k: nat): Image
      requires setup.Printable() && k < |setup.MarginHeights()| + |strips|
    {
      var margin := setup.MarginHeights();
      if k < |margin| then
        Image(setup.pixelWidth, margin[k], setup.color, setup.filter, true, blank(margin[k]))
      else
        var strip := strips[k - |margin|];
        Image(setup.pixelWidth, if setup.filter == Dct then setup.StripHeight() else strip.lines, setup.color,
              setup.filter, strip.looksWhite && k > |margin|, strip.data)
    }

    ghost function SourceBodies(n: nat): (r: seq<string>)
      requires n <= |strips|
      ensures |r| == n
    {
      seq(n, k requires 0 <= k < n =>
        StripBody(setup, strips[k].lines, strips[k].data, strips[k].looksWhite && k > 0))
    }
  }

  /** The object numbers of a page: its own, those it names as its images, and those its strips got. */
  datatype PageLog = PageLog(page: nat, refs: seq<nat>, objs: seq<nat>)

  /** The page object names `refs`, its contents are the next object and place as many strips, and the
      strips stand under `objs`. */
  ghost predicate Logged(p: PageJob, log: PageLog, objects: seq<string>) {
    && p.setup.Printable() && |log.refs| == |p.setup.Heights()|
    && 3 <= log.page < |objects| + 2
    && objects[log.page - 3] == PageText(p.setup, log.refs, log.page + 1)
    && objects[log.page - 2] == StreamText(ContentText(p.setup.resolution, p.setup.pixelWidth, p.setup.Places()))
    && StripsStand(objects, log.objs, p.StripBodies())
  }

  lemma LoggedGrows(p: PageJob, log: PageLog, earlier: seq<string>, objects: seq<string>)
    requires Logged(p, log, earlier) && earlier <= objects
    ensures Logged(p, log, objects)
  {
    hide PageText, StreamText, ContentText, PageSetup.Printable, PageSetup.Heights, PageSetup.Places, PageJob.StripBodies;
  }

  lemma FeasibleMeans(p: PageJob, rest: Option<int>)
    requires p.Feasible(rest)
    ensures p.setup.Printable()
    ensures forall k | 0 <= k < |p.strips| :: FillsStrip(p.RestAt(rest, k), p.strips[k].lines, p.setup.StripHeight())
  {
    hide PageSetup.Printable, PageSetup.StripHeight, FillsStrip, PageJob.RestAt;
  }

  lemma WrittenMeans(p: PageJob, rest: Option<int>, k: nat)
    requires k < |p.strips|
    ensures p.Written(rest).strips[k]
         == p.strips[k].(lines := if p.RestAt(rest, k).Some? then p.setup.StripHeight() else p.strips[k].lines)
    ensures p.RestAt(rest, k + 1) == RestOf(p.RestAt(rest, k), p.strips[k].lines, p.setup.StripHeight())
  {
    hide PageSetup.StripHeight, RestOf;
  }

  lemma WrittenInked(p: PageJob, rest: Option<int>)
    ensures (p.Written(rest).Inked() <==> p.Inked()) && (p.Written(rest).Adobe() <==> p.Adobe())
  {
    assert p.strips == [] <==> |p.strips| == 0;
    hide PageJob.RestAt;
  }

  /** A plain page leaves nothing over and is written as it is. */
  lemma {:induction false} PlainRests(p: PageJob, k: nat)
    requires p.Plain() && k <= |p.strips|
    ensures p.RestAt(None, k) == None
  {
    hide PageSetup.Printable, PageSetup.StripHeight;
    if k > 0 {
      PlainRests(p, k - 1);
    }
  }

  lemma PlainIsWritten(p: PageJob)
    requires p.Plain()
    ensures p.Feasible(None) && p.Written(None) == p
  {
    forall k: nat | k < |p.strips|
      ensures p.RestAt(None, k) == None
    {
      PlainRests(p, k);
    }
    hide PageSetup.Printable, PageSetup.StripHeight, PageJob.RestAt;
    assert p.Written(None).strips == p.strips;
  }

  /** The writer has as much left over. */
  ghost predicate Keeps(gen: PclmGenerator, rest: Option<int>)
    reads gen`hasLeftover, gen`leftoverLines
  {
    gen.hasLeftover == rest.Some? && (rest.Some? ==> gen.leftoverLines == rest.value)
  }

  lemma KeepsNext(rest: Option<int>, lines: nat, height: nat)
    ensures RestOf(rest, lines, height).Some? == (rest.Some? || lines > height)
    ensures RestOf(rest, lines, height).Some? ==>
              RestOf(rest, lines, height).value == (if rest.Some? then rest.value else 0) + lines - height
    ensures FillsStrip(rest, lines, height) <==> (rest.Some? ==> rest.value <= height <= rest.value + lines)
  {
  }

  /** How many names and strips a page has. */
  lemma StripNumbers(p: PageJob)
    requires p.setup.Printable()
    ensures |p.setup.Heights()| <= |p.StripBodies()| <==> p.EnoughStrips()
    ensures |p.StripBodies()| <= |p.setup.Heights()| <==> p.NoExtraStrips()
    ensures p.StripBodies() == [] <==> p.strips == []
  {
    HeightCount(p.setup);
    hide PageSetup.MarginHeights, PageSetup.Heights, PageSetup.StripCount, PageSetup.Printable, StripBody;
  }

  /** The colour profile after some strips of a page: it is written with the first one, if it is due. */
  ghost predicate ColorAfter(gen: PclmGenerator, used: bool, due: bool, counter: nat, icc: nat)
    reads gen`adobeFirstTime, gen`iccObj
  {
    && gen.adobeFirstTime == (due && !used)
    && gen.iccObj == if due && used then counter else icc
  }

  lemma KeepsMeans(gen: PclmGenerator, rest: Option<int>)
    ensures Keeps(gen, rest) <==> gen.hasLeftover == rest.Some? && (rest.Some? ==> gen.leftoverLines == rest.value)
  {
  }

  /** `Encapsulate` for strip i of the page. */
  method PrintStrip(gen: PclmGenerator, p: PageJob, ghost rest: Option<int>, i: nat) returns (more: string)
    requires i < |p.strips| && gen.Valid() && gen.OnPage() && gen.setup == p.setup && Keeps(gen, p.RestAt(rest, i))
    requires p.setup.Printable() && p.setup.StripHeight() == gen.stripHeight
    requires FillsStrip(p.RestAt(rest, i), p.strips[i].lines, p.setup.StripHeight())
    modifies gen`currBuff, gen`totalBytes, gen`file, gen`offsets, gen`xRefTable, gen`objCounter, gen`objects,
             gen`adobeFirstTime, gen`iccObj, gen`stripObjs, gen`stripBodies, gen`callStart, gen`firstStrip,
             gen`hasLeftover, gen`leftoverLines
    ensures gen.Valid() && gen.OnPage() && !gen.firstStrip && gen.file == old(gen.file) + more
    ensures old(gen.objects) <= gen.objects && Keeps(gen, p.RestAt(rest, i + 1))
    ensures gen.stripBodies == old(gen.stripBodies)
                               + (if old(gen.firstStrip) then MarginBodies(p.setup, p.blank) else [])
                               + [StripBody(p.setup, p.Written(rest).strips[i].lines, p.strips[i].data,
                                            p.strips[i].looksWhite && !old(gen.firstStrip))]
    ensures gen.adobeFirstTime == (old(gen.adobeFirstTime) && p.setup.color != AdobeRGB)
    ensures gen.iccObj == if old(gen.adobeFirstTime) && p.setup.color == AdobeRGB then old(gen.objCounter) else old(gen.iccObj)
  {
    hide *;
    WrittenMeans(p, rest, i);
    KeepsMeans(gen, p.RestAt(rest, i));
    KeepsNext(p.RestAt(rest, i), p.strips[i].lines, p.setup.StripHeight());
    more := gen.Encapsulate(p.strips[i].lines, p.blank, p.strips[i].data, p.strips[i].looksWhite);
    KeepsMeans(gen, p.RestAt(rest, i + 1));
  }

  /** One turn of the loop over the strips: the bodies written, and what became of the colour profile. */
  method NextStrip(gen: PclmGenerator, p: PageJob, ghost w: PageJob, ghost rest: Option<int>, i: nat,
                   ghost due: bool, ghost counter: nat, ghost icc: nat)
    returns (more: string)
    requires i < |p.strips| && gen.Valid() && gen.OnPage() && gen.setup == p.setup && Keeps(gen, p.RestAt(rest, i))
    requires p.setup.Printable() && p.setup.StripHeight() == gen.stripHeight
    requires FillsStrip(p.RestAt(rest, i), p.strips[i].lines, p.setup.StripHeight())
    requires w == p.Written(rest) && w.setup == p.setup && w.blank == p.blank && |w.strips| == |p.strips|
    requires gen.firstStrip == (i == 0)
    requires gen.stripBodies == if i == 0 then [] else MarginBodies(p.setup, p.blank) + w.SourceBodies(i)
    requires ColorAfter(gen, p.setup.color == AdobeRGB && i > 0, due, counter, icc)
    requires i == 0 ==> gen.objCounter == counter
    modifies gen`currBuff, gen`totalBytes, gen`file, gen`offsets, gen`xRefTable, gen`objCounter, gen`objects,
             gen`adobeFirstTime, gen`iccObj, gen`stripObjs, gen`stripBodies, gen`callStart, gen`firstStrip,
             gen`hasLeftover, gen`leftoverLines
    ensures gen.Valid() && gen.OnPage() && !gen.firstStrip && gen.file == old(gen.file) + more
    ensures old(gen.objects) <= gen.objects && Keeps(gen, p.RestAt(rest, i + 1))
    ensures gen.stripBodies == MarginBodies(p.setup, p.blank) + w.SourceBodies(i + 1)
    ensures ColorAfter(gen, p.setup.color == AdobeRGB, due, counter, icc)
  {
    hide *;
    ColorMeans(gen, p.setup.color == AdobeRGB && i > 0, due, counter, icc);
    SourceBodiesStep(w, i);
    WrittenMeans(p, rest, i);
    more := PrintStrip(gen, p, rest, i);
    ColorMeans(gen, p.setup.color == AdobeRGB, due, counter, icc);
  }

  /** `Encapsulate` for every strip of the page. */
  method PrintStrips(gen: PclmGenerator, p: PageJob, ghost rest: Option<int>) returns (out: string)
    requires gen.Valid() && gen.OnPage() && gen.setup == p.setup && p.Feasible(rest) && Keeps(gen, rest)
    requires gen.firstStrip && gen.stripBodies == []
    modifies gen`currBuff, gen`totalBytes, gen`file, gen`offsets, gen`xRefTable, gen`objCounter, gen`objects,
             gen`adobeFirstTime, gen`iccObj, gen`stripObjs, gen`stripBodies, gen`callStart, gen`firstStrip,
             gen`hasLeftover, gen`leftoverLines
    ensures gen.Valid() && gen.OnPage() && gen.file == old(gen.file) + out && old(gen.objects) <= gen.objects
    ensures p.setup.Printable() && gen.stripBodies == p.Written(rest).StripBodies()
    ensures Keeps(gen, p.RestAt(rest, |p.strips|))
    ensures ColorAfter(gen, p.Inked(), old(gen.adobeFirstTime), old(gen.objCounter), old(gen.iccObj))
  {
    hide *;
    FeasibleMeans(p, rest);
    ghost var w := p.Written(rest);
    NoStripYet(p, w, rest);
    gen.NoMargin(p.blank);
    out := "";
    ghost var before, objects := gen.file, gen.objects;
    ghost var due, counter, icc := gen.adobeFirstTime, gen.objCounter, gen.iccObj;
    ColorMeans(gen, false, due, counter, icc);
    var i := 0;
    while i < |p.strips|
      invariant 0 <= i <= |p.strips| && gen.Valid() && gen.OnPage() && Keeps(gen, p.RestAt(rest, i))
      invariant gen.file == before + out && objects <= gen.objects && p.setup.StripHeight() == gen.stripHeight
      invariant gen.firstStrip == (i == 0)
      invariant gen.stripBodies == if i == 0 then [] else MarginBodies(p.setup, p.blank) + w.SourceBodies(i)
      invariant ColorAfter(gen, p.setup.color == AdobeRGB && i > 0, due, counter, icc)
      invariant i == 0 ==> gen.objCounter == counter
    {
      var more := NextStrip(gen, p, w, rest, i, due, counter, icc);
      out := out + more;
      i := i + 1;
    }
    StripBodiesMean(w);
    WrittenInked(p, rest);
  }

  lemma NoStripYet(p: PageJob, w: PageJob, rest: Option<int>)
    requires w == p.Written(rest)
    ensures w.setup == p.setup && w.blank == p.blank && |w.strips| == |p.strips| && p.RestAt(rest, 0) == rest
  {
  }

  lemma ColorMeans(gen: PclmGenerator, used: bool, due: bool, counter: nat, icc: nat)
    ensures ColorAfter(gen, used, due, counter, icc)
        <==> gen.adobeFirstTime == (due && !used) && gen.iccObj == if due && used then counter else icc
  {
  }

  lemma StripBodiesMean(p: PageJob)
    requires p.setup.Printable()
    ensures p.StripBodies() == if p.strips == [] then [] else MarginBodies(p.setup, p.blank) + p.SourceBodies(|p.strips|)
    ensures p.Inked() <==> p.setup.color == AdobeRGB && |p.strips| > 0
  {
  }

  lemma SourceBodiesStep(p: PageJob, i: nat)
    requires i < |p.strips|
    ensures p.SourceBodies(0) == []
    ensures var strip := p.strips[i];
            p.SourceBodies(i + 1)
            == p.SourceBodies(i) + [StripBody(p.setup, strip.lines, strip.data, strip.looksWhite && i > 0)]
  {
    hide StripBody;
  }

  lemma RefsOrder(a: nat, n: nat, b: nat, m: nat)
    ensures Refs(a, n) <= Refs(b, m) <==> n <= m && (n == 0 || a == b)
  {
    if n > 0 && n <= m {
      assert Refs(a, n)[0] == a && Refs(b, m)[..n][0] == b;
    }
  }

  lemma PageIsLogged(p: PageJob, log: PageLog, started: seq<string>, objects: seq<string>)
    requires p.setup.Printable() && |log.refs| == |p.setup.Heights()|
    requires 3 <= log.page && |started| == log.page - 1 && started <= objects
    requires started[log.page - 3] == PageText(p.setup, log.refs, log.page + 1)
    requires started[log.page - 2] == StreamText(ContentText(p.setup.resolution, p.setup.pixelWidth, p.setup.Places()))
    requires StripsStand(objects, log.objs, p.StripBodies())
    ensures Logged(p, log, objects)
  {
    hide PageText, StreamText, ContentText, PageSetup.Printable, PageSetup.Heights, PageSetup.Places, PageJob.StripBodies;
  }

  /** Every image the page names is its strip of that index exactly when the page brings enough strips and is in
      step; every strip is named exactly when it brings no more than announced and is in step. */
  ghost predicate ResolvesIff(p: PageJob, log: PageLog, inStep: bool) {
    && p.setup.Printable()
    && (log.refs <= log.objs <==> p.EnoughStrips() && (p.setup.Heights() == [] || inStep))
    && (log.objs <= log.refs <==> p.NoExtraStrips() && (p.strips == [] || inStep))
  }

  lemma ResolvesMeans(p: PageJob, log: PageLog, inStep: bool)
    requires p.setup.Printable()
    ensures ResolvesIff(p, log, inStep)
        <==> && (log.refs <= log.objs <==> p.EnoughStrips() && (|p.setup.Heights()| == 0 || inStep))
             && (log.objs <= log.refs <==> p.NoExtraStrips() && (p.strips == [] || inStep))
  {
    hide PageSetup.Printable, PageSetup.Heights, PageJob.EnoughStrips, PageJob.NoExtraStrips;
  }

  lemma NumbersResolve(p: PageJob, log: PageLog, first: nat, shift: nat, expected: nat)
    requires p.setup.Printable() && log.refs == Refs(first + expected, |p.setup.Heights()|)
    requires log.objs == Refs(first + shift, |p.StripBodies()|)
    ensures ResolvesIff(p, log, shift == expected)
  {
    hide *;
    StripNumbers(p);
    RefsOrder(first + expected, |p.setup.Heights()|, first + shift, |p.StripBodies()|);
    RefsOrder(first + shift, |p.StripBodies()|, first + expected, |p.setup.Heights()|);
    ResolvesMeans(p, log, shift == expected);
  }

  /** The page's own objects have been written, and its names and the number of its first strip are settled. */
  ghost predicate Begun(gen: PclmGenerator, p: PageJob, page: nat)
    reads gen`objects, gen`pageRefs, gen`pageCount, gen`firstObj, gen`adobeFirstTime
  {
    && p.setup.Printable() && 3 <= page && |gen.objects| == page - 1
    && gen.objects[page - 3] == PageText(p.setup, gen.pageRefs, page + 1)
    && gen.objects[page - 2] == StreamText(ContentText(p.setup.resolution, p.setup.pixelWidth, p.setup.Places()))
    && gen.pageRefs == Refs(page + 2 + ProfileShift(p.setup, gen.pageCount == 1), |p.setup.Heights()|)
    && gen.firstObj == page + 2 + ProfileShift(p.setup, gen.adobeFirstTime)
  }

  lemma BegunMeans(gen: PclmGenerator, p: PageJob, page: nat)
    requires p.setup.Printable() && 3 <= page && |gen.objects| == page - 1
    ensures Begun(gen, p, page)
        <==> && gen.objects[page - 3] == PageText(p.setup, gen.pageRefs, page + 1)
             && gen.objects[page - 2] == StreamText(ContentText(p.setup.resolution, p.setup.pixelWidth, p.setup.Places()))
             && gen.pageRefs == Refs(page + 2 + ProfileShift(p.setup, gen.pageCount == 1), |p.setup.Heights()|)
             && gen.firstObj == page + 2 + ProfileShift(p.setup, gen.adobeFirstTime)
  {
    hide PageText, StreamText, ContentText, PageSetup.Printable, PageSetup.Heights, PageSetup.Places, Refs, ProfileShift;
  }

  lemma BegunNumbers(gen: PclmGenerator, p: PageJob, page: nat)
    requires Begun(gen, p, page)
    ensures p.setup.Printable() && 3 <= page && |gen.objects| == page - 1
  {
    hide PageSetup.Printable;
  }

  /** `Encapsulate` for every strip and `EndPage`. */
  method PrintLines(gen: PclmGenerator, p: PageJob, ghost rest: Option<int>) returns (out: string)
    requires gen.Valid() && gen.OnPage() && gen.setup == p.setup && p.Feasible(rest) && Keeps(gen, rest)
    requires gen.firstStrip && gen.stripBodies == []
    modifies gen`currBuff, gen`totalBytes, gen`file, gen`offsets, gen`xRefTable, gen`objCounter, gen`objects,
             gen`adobeFirstTime, gen`iccObj, gen`stripObjs, gen`stripBodies, gen`callStart, gen`firstStrip,
             gen`hasLeftover, gen`leftoverLines
    ensures gen.Valid() && gen.OnPage() && gen.file == old(gen.file) + out && old(gen.objects) <= gen.objects
    ensures p.setup.Printable() && gen.stripBodies == p.Written(rest).StripBodies()
    ensures Keeps(gen, p.RestAt(rest, |p.strips|))
    ensures ColorAfter(gen, p.Inked(), old(gen.adobeFirstTime), old(gen.objCounter), old(gen.iccObj))
  {
    hide *;
    out := PrintStrips(gen, p, rest);
    var tail := gen.EndPage();
    out := out + tail;
  }

  /** What `StartPage` leaves to be done, of a page whose own objects are `page` and the next one. */
  method PrintBody(gen: PclmGenerator, p: PageJob, ghost rest: Option<int>, ghost page: nat)
    returns (out: string, ghost log: PageLog)
    requires gen.Valid() && gen.OnPage() && gen.setup == p.setup && p.Feasible(rest) && Keeps(gen, rest)
    requires gen.firstStrip && gen.stripBodies == [] && Begun(gen, p, page)
    modifies gen`currBuff, gen`totalBytes, gen`file, gen`offsets, gen`xRefTable, gen`objCounter, gen`objects,
             gen`adobeFirstTime, gen`iccObj, gen`stripObjs, gen`stripBodies, gen`callStart, gen`firstStrip,
             gen`hasLeftover, gen`leftoverLines
    ensures gen.Valid() && gen.Settled() && Keeps(gen, p.RestAt(rest, |p.strips|))
    ensures gen.file == old(gen.file) + out && old(gen.objects) <= gen.objects
    ensures log.page == page && Logged(p.Written(rest), log, gen.objects)
    ensures ResolvesIff(p.Written(rest), log, p.Adobe() ==> (old(gen.adobeFirstTime) <==> gen.pageCount == 1))
    ensures ColorAfter(gen, p.Inked(), old(gen.adobeFirstTime), old(gen.objCounter), old(gen.iccObj))
  {
    hide *;
    ghost var w, objects, due := p.Written(rest), gen.objects, gen.adobeFirstTime;
    BegunNumbers(gen, p, page);
    BegunMeans(gen, p, page);
    out := PrintLines(gen, p, rest);
    gen.OnPageMeans();
    gen.StaysSettled();
    log := PageLog(page, gen.pageRefs, gen.stripObjs);
    PageShown(w, log, objects, gen.objects, due, gen.pageCount == 1);
    WrittenInked(p, rest);
  }

  /** `StartPage`. */
  method BeginPage(gen: PclmGenerator, p: PageJob) returns (out: string)
    requires gen.Valid() && gen.Settled() && p.setup.Printable() && !gen.MirrorsNext(p.setup)
    modifies gen`currBuff, gen`totalBytes, gen`file, gen`offsets, gen`xRefTable, gen`objCounter, gen`objects,
             gen`kids, gen`pageRefs, gen`callStart, gen`setup, gen`stripHeight, gen`topMargin, gen`numFull,
             gen`fullLines, gen`partialLines, gen`pageCount, gen`reverseOrder, gen`mirrorBackside,
             gen`firstStrip, gen`stripObjs, gen`stripBodies, gen`firstObj
    ensures gen.Valid() && gen.OnPage() && gen.firstStrip && gen.stripBodies == [] && gen.setup == p.setup
    ensures gen.mirrorBackside == p.setup.mirrorBackside
    ensures Begun(gen, p, old(gen.objCounter))
    ensures gen.file == old(gen.file) + out && old(gen.objects) <= gen.objects
    ensures gen.pageCount == old(gen.pageCount) + 1 && gen.kids == old(gen.kids) + [old(gen.objCounter)]
    ensures gen.objCounter == old(gen.objCounter) + 2
  {
    hide *;
    gen.ObjectsStand();
    ghost var page := gen.objCounter;
    out := gen.StartPage(p.setup, p.ticket);
    gen.ObjectsStand();
    BegunMeans(gen, p, page);
  }

  /** `StartPage`, `Encapsulate` for every strip, `EndPage`. The page is in step if the colour profile is due on
      the first page or not at all. */
  method PrintPage(gen: PclmGenerator, p: PageJob, ghost rest: Option<int>) returns (out: string, ghost log: PageLog)
    requires gen.Valid() && gen.Settled() && !gen.MirrorsNext(p.setup) && p.Feasible(rest) && Keeps(gen, rest)
    modifies gen
    ensures gen.Valid() && gen.Settled() && gen.mirrorBackside == p.setup.mirrorBackside
    ensures Keeps(gen, p.RestAt(rest, |p.strips|))
    ensures gen.file == old(gen.file) + out && old(gen.objects) <= gen.objects
    ensures gen.pageCount == old(gen.pageCount) + 1 && gen.kids == old(gen.kids) + [log.page]
    ensures gen.objCounter >= old(gen.objCounter) + 2
    ensures Logged(p.Written(rest), log, gen.objects)
    ensures ResolvesIff(p.Written(rest), log, p.Adobe() ==> (old(gen.adobeFirstTime) <==> old(gen.pageCount) == 0))
    ensures ColorAfter(gen, p.Inked(), old(gen.adobeFirstTime), old(gen.objCounter) + 2, old(gen.iccObj))
  {
    hide *;
    FeasibleMeans(p, rest);
    KeepsMeans(gen, rest);
    gen.ObjectsStand();
    ghost var pageObj := gen.objCounter;
    out := BeginPage(gen, p);
    KeepsMeans(gen, rest);
    gen.ObjectsStand();
    var body;
    body, log := PrintBody(gen, p, rest, pageObj);
    gen.ObjectsStand();
    out := out + body;
  }

  lemma PageShown(w: PageJob, log: PageLog, started: seq<string>, objects: seq<string>, due: bool, firstPage: bool)
    requires w.setup.Printable() && 3 <= log.page && |started| == log.page - 1 && started <= objects
    requires started[log.page - 3] == PageText(w.setup, log.refs, log.page + 1)
    requires started[log.page - 2] == StreamText(ContentText(w.setup.resolution, w.setup.pixelWidth, w.setup.Places()))
    requires log.refs == Refs(log.page + 2 + ProfileShift(w.setup, firstPage), |w.setup.Heights()|)
    requires log.objs == Refs(log.page + 2 + ProfileShift(w.setup, due), |log.objs|)
    requires StripsStand(objects, log.objs, w.StripBodies())
    ensures Logged(w, log, objects)
    ensures ResolvesIff(w, log, w.Adobe() ==> (due <==> firstPage))
  {
    hide *;
    PageIsLogged(w, log, started, objects);
    StandNumber(objects, log.objs, w.StripBodies());
    NumbersResolve(w, log, log.page + 2, ProfileShift(w.setup, due), ProfileShift(w.setup, firstPage));
    ShiftMeans(w.setup, firstPage);
    ShiftMeans(w.setup, due);
    AdobeMeans(w);
  }

  lemma StandNumber(objects: seq<string>, objs: seq<nat>, bodies: seq<string>)
    requires StripsStand(objects, objs, bodies)
    ensures |objs| == |bodies|
  {
  }

  lemma AdobeMeans(p: PageJob)
    ensures p.Adobe() <==> p.setup.color == AdobeRGB
  {
  }

  ghost predicate NoneInked(ps: seq<PageJob>) { forall p | p in ps :: !p.Inked() }

  /** Page i expects the colour profile before its strips if and only if it is written there. */
  ghost predicate InStep(pages: seq<PageJob>, i: nat)
    requires i < |pages|
  {
    pages[i].Adobe() ==> (NoneInked(pages[..i]) <==> i == 0)
  }

  ghost function PageObjects(logs: seq<PageLog>): (r: seq<nat>)
    ensures |r| == |logs|
  {
    seq(|logs|, i requires 0 <= i < |logs| => logs[i].page)
  }

  /** The first n pages are in the file, and which of their images resolve. */
  ghost predicate AllLogged(pages: seq<PageJob>, n: nat, logs: seq<PageLog>, objects: seq<string>) {
    && n <= |pages| && |logs| == n
    && (forall i | 0 <= i < n :: Logged(pages[i], logs[i], objects))
    && (forall i | 0 <= i < n :: ResolvesIff(pages[i], logs[i], InStep(pages, i)))
  }

  /** What a reader of the file finds for one page: its object names the images and the contents, the contents
      draw its strips, and all strips are there: those of the margin, if there are others, and one for every call. */
  ghost predicate PageShows(file: string, subs: seq<Subsection>, p: PageJob, log: PageLog) {
    && p.setup.Printable()
    && (var page := ReadObject(file, subs, log.page);
        page.Some? && ReadPage(page.value) == Some(PageRead(2, log.refs, p.setup.mediaWidth, p.setup.mediaHeight, log.page + 1)))
    && (var contents := ReadObject(file, subs, log.page + 1);
        contents.Some? && StreamDraws(p.setup, contents.value))
    && |log.objs| == (if p.strips == [] then 0 else |p.setup.MarginHeights()| + |p.strips|)
    && forall k | 0 <= k < |log.objs| ::
         var strip := ReadObject(file, subs, log.objs[k]);
         strip.Some? && ReadImage(strip.value) == Some(p.StripImage(k))
  }

  /** The colour space that AdobeRGB strips name is there, and so is its profile. */
  ghost predicate ProfileShows(file: string, subs: seq<Subsection>, profile: string) {
    var space := ReadObject(file, subs, 5);
    && space.Some? && ReadColorSpace(space.value).Some?
    && var data := ReadObject(file, subs, ReadColorSpace(space.value).value);
       data.Some? && ReadProfile(data.value) == Some(profile + "\n")
  }

  /** What a reader of the whole file finds, starting at its end. */
  ghost predicate JobShows(file: string, pages: seq<PageJob>, logs: seq<PageLog>, profile: string) {
    var x := ReadXref(file);
    && x.Some? && |logs| == |pages| && ReadPages(file) == Some(PageObjects(logs))
    && (forall i | 0 <= i < |pages| :: PageShows(file, x.value.subs, pages[i], logs[i]))
    && (pages != [] && pages[0].Inked() ==> ProfileShows(file, x.value.subs, profile))
  }

  lemma ReadsMean(file: string, start: nat, all: seq<string>) returns (subs: seq<Subsection>)
    requires ReadsAs(file, start, all)
    ensures ReadXref(file).Some? && subs == ReadXref(file).value.subs
    ensures forall i | 0 <= i < |all| :: Holds(file, subs, i + 1, all[i])
  {
    subs := ReadXref(file).value.subs;
    hide ReadXref, Holds;
  }

  lemma ObjectHolds(file: string, subs: seq<Subsection>, kids: seq<nat>, objects: seq<string>, n: nat)
    requires forall i | 0 <= i < |Bodies(kids, objects)| :: Holds(file, subs, i + 1, Bodies(kids, objects)[i])
    requires 3 <= n < |objects| + 3
    ensures Holds(file, subs, n, objects[n - 3])
  {
    hide Holds, CatalogText, PageTreeText;
    assert Holds(file, subs, n - 1 + 1, Bodies(kids, objects)[n - 1]);
  }

  lemma LoggedShows(file: string, subs: seq<Subsection>, kids: seq<nat>, objects: seq<string>, p: PageJob, log: PageLog)
    requires forall i | 0 <= i < |Bodies(kids, objects)| :: Holds(file, subs, i + 1, Bodies(kids, objects)[i])
    requires Logged(p, log, objects)
    ensures PageShows(file, subs, p, log)
  {
    hide *;
    LoggedMeans(p, log, objects);
    ObjectHolds(file, subs, kids, objects, log.page);
    ObjectHolds(file, subs, kids, objects, log.page + 1);
    PageObjectReads(file, subs, p, log);
    ContentsRead(file, subs, log.page + 1, p.setup);
    StripCounts(p);
    StripsRead(file, subs, kids, objects, p, log.objs);
    PartsShow(file, subs, p, log);
  }

  lemma StripsRead(file: string, subs: seq<Subsection>, kids: seq<nat>, objects: seq<string>, p: PageJob, objs: seq<nat>)
    requires forall i | 0 <= i < |Bodies(kids, objects)| :: Holds(file, subs, i + 1, Bodies(kids, objects)[i])
    requires p.setup.Printable()
    requires |objs| == |p.StripBodies()| == if p.strips == [] then 0 else |p.setup.MarginHeights()| + |p.strips|
    requires forall k | 0 <= k < |objs| :: 3 <= objs[k] < |objects| + 3 && objects[objs[k] - 3] == p.StripBodies()[k]
    ensures forall k | 0 <= k < |objs| ::
              var strip := ReadObject(file, subs, objs[k]);
              strip.Some? && ReadImage(strip.value) == Some(p.StripImage(k))
  {
    hide *;
    forall k | 0 <= k < |objs|
      ensures var strip := ReadObject(file, subs, objs[k]);
              strip.Some? && ReadImage(strip.value) == Some(p.StripImage(k))
    {
      ObjectHolds(file, subs, kids, objects, objs[k]);
      StripReads(file, subs, objs[k], p, k);
    }
  }

  lemma LoggedMeans(p: PageJob, log: PageLog, objects: seq<string>)
    requires Logged(p, log, objects)
    ensures p.setup.Printable() && 3 <= log.page < |objects| + 2
    ensures objects[log.page - 3] == PageText(p.setup, log.refs, log.page + 1)
    ensures objects[log.page - 2] == StreamText(ContentText(p.setup.resolution, p.setup.pixelWidth, p.setup.Places()))
    ensures |p.StripBodies()| == |log.objs|
    ensures forall k | 0 <= k < |log.objs| ::
              3 <= log.objs[k] < |objects| + 3 && objects[log.objs[k] - 3] == p.StripBodies()[k]
  {
    hide PageText, StreamText, ContentText, PageSetup.Printable, PageSetup.Heights, PageSetup.Places, PageJob.StripBodies;
  }

  lemma PartsShow(file: string, subs: seq<Subsection>, p: PageJob, log: PageLog)
    requires p.setup.Printable() && ReadObject(file, subs, log.page).Some? && ReadObject(file, subs, log.page + 1).Some?
    requires ReadPage(ReadObject(file, subs, log.page).value)
          == Some(PageRead(2, log.refs, p.setup.mediaWidth, p.setup.mediaHeight, log.page + 1))
    requires StreamDraws(p.setup, ReadObject(file, subs, log.page + 1).value)
    requires |log.objs| == if p.strips == [] then 0 else |p.setup.MarginHeights()| + |p.strips|
    requires forall k | 0 <= k < |log.objs| ::
               var strip := ReadObject(file, subs, log.objs[k]);
               strip.Some? && ReadImage(strip.value) == Some(p.StripImage(k))
    ensures PageShows(file, subs, p, log)
  {
    hide PageSetup.Printable, PageSetup.MarginHeights, StreamDraws, ReadObject, ReadPage, ReadImage, PageJob.StripImage;
  }

  lemma ContentsRead(file: string, subs: seq<Subsection>, n: nat, s: PageSetup)
    requires s.Printable()
    requires Holds(file, subs, n, StreamText(ContentText(s.resolution, s.pixelWidth, s.Places())))
    ensures ReadObject(file, subs, n).Some? && StreamDraws(s, ReadObject(file, subs, n).value)
  {
    hide *;
    var rest := HoldsMeans(file, subs, n, StreamText(ContentText(s.resolution, s.pixelWidth, s.Places())));
    ContentsDraw(s, rest);
  }

  lemma StripCounts(p: PageJob)
    requires p.setup.Printable()
    ensures |p.StripBodies()| == if p.strips == [] then 0 else |p.setup.MarginHeights()| + |p.strips|
  {
    hide PageSetup.MarginHeights, PageSetup.Printable, StripBody;
  }

  /** Strip k of a page reads back as the image it should be. */
  lemma StripReads(file: string, subs: seq<Subsection>, n: nat, p: PageJob, k: nat)
    requires p.setup.Printable() && p.strips != [] && k < |p.setup.MarginHeights()| + |p.strips| == |p.StripBodies()|
    requires Holds(file, subs, n, p.StripBodies()[k])
    ensures ReadObject(file, subs, n).Some? && ReadImage(ReadObject(file, subs, n).value) == Some(p.StripImage(k))
  {
    hide *;
    var image := p.StripImage(k);
    StripBodyIs(p, k);
    var rest := HoldsMeans(file, subs, n, p.StripBodies()[k]);
    ImageReads(image.width, image.height, image.color, image.filter, image.white, image.data, rest);
  }

  lemma StripBodyIs(p: PageJob, k: nat)
    requires p.setup.Printable() && p.strips != [] && k < |p.setup.MarginHeights()| + |p.strips| == |p.StripBodies()|
    ensures var i := p.StripImage(k);
            p.StripBodies()[k] == StripText(i.width, i.height, i.color, i.filter, i.white, i.data)
  {
    hide StripText, PageSetup.MarginHeights, PageSetup.Printable, PageSetup.StripHeight;
  }

  lemma ProfileReadsBack(file: string, subs: seq<Subsection>, kids: seq<nat>, objects: seq<string>, profile: string)
    requires forall i | 0 <= i < |Bodies(kids, objects)| :: Holds(file, subs, i + 1, Bodies(kids, objects)[i])
    requires ProfileAt(objects, 5, profile)
    ensures ProfileShows(file, subs, profile)
  {
    hide Holds, Bodies, ReadObject, ReadColorSpace, ReadProfile, IccText, ProfileText;
    ObjectHolds(file, subs, kids, objects, 5);
    ObjectHolds(file, subs, kids, objects, 6);
    var rest := HoldsMeans(file, subs, 5, IccText(6));
    ColorSpaceReads(6, rest);
    rest := HoldsMeans(file, subs, 6, ProfileText(profile));
    ProfileReads(profile, rest);
  }

  lemma PageObjectReads(file: string, subs: seq<Subsection>, p: PageJob, log: PageLog)
    requires Holds(file, subs, log.page, PageText(p.setup, log.refs, log.page + 1))
    ensures var page := ReadObject(file, subs, log.page);
            page.Some?
            && ReadPage(page.value) == Some(PageRead(2, log.refs, p.setup.mediaWidth, p.setup.mediaHeight, log.page + 1))
  {
    hide *;
    var rest := HoldsMeans(file, subs, log.page, PageText(p.setup, log.refs, log.page + 1));
    PageTextMeans(p.setup, log.refs, log.page + 1);
    PageReads(log.refs, p.setup.mediaWidth, p.setup.mediaHeight, log.page + 1, rest);
  }

  lemma AllShows(file: string, start: nat, pages: seq<PageJob>, logs: seq<PageLog>, objects: seq<string>,
                 profile: string)
    requires ReadsAs(file, start, Bodies(PageObjects(logs), objects))
    requires AllLogged(pages, |pages|, logs, objects)
    requires pages != [] && pages[0].Inked() ==> ProfileAt(objects, 5, profile)
    ensures JobShows(file, pages, logs, profile)
  {
    hide ReadsAs, ReadXref, ReadPages, Holds, Logged, ResolvesIff, PageShows, Bodies, InStep, PageObjects, PageJob.Inked,
         ProfileAt, ProfileShows;
    PagesRead(file, start, PageObjects(logs), objects);
    var subs := ReadsMean(file, start, Bodies(PageObjects(logs), objects));
    forall i | 0 <= i < |pages|
      ensures PageShows(file, subs, pages[i], logs[i])
    {
      LoggedShows(file, subs, PageObjects(logs), objects, pages[i], logs[i]);
    }
    if pages != [] && pages[0].Inked() {
      ProfileReadsBack(file, subs, PageObjects(logs), objects, profile);
    }
  }

  /** The job so far: which object is the colour space. */
  ghost predicate Colored(gen: PclmGenerator, pages: seq<PageJob>, n: nat)
    reads gen`adobeFirstTime, gen`iccObj, gen`objCounter
  {
    && n <= |pages| && gen.objCounter >= 3 + 2 * n && (n == 0 ==> gen.objCounter == 3)
    && (gen.adobeFirstTime <==> NoneInked(pages[..n]))
    && (gen.adobeFirstTime ==> gen.iccObj == 0)
    && (!gen.adobeFirstTime ==> (gen.iccObj == 5 <==> pages != [] && pages[0].Inked()))
  }

  /** What is left over before page i of a job. */
  ghost function RestBefore(pages: seq<PageJob>, i: nat): Option<int>
    requires i <= |pages|
  {
    if i == 0 then None else pages[i - 1].RestAt(RestBefore(pages, i - 1), |pages[i - 1].strips|)
  }

  /** The pages as they are written. */
  ghost function AllWritten(pages: seq<PageJob>): (w: seq<PageJob>)
    ensures |w| == |pages|
  {
    seq(|pages|, i requires 0 <= i < |pages| => pages[i].Written(RestBefore(pages, i)))
  }

  /** Page i is no mirrored back side. */
  predicate Unmirrored(pages: seq<PageJob>, i: nat)
    requires i < |pages|
  {
    pages[i].setup.longEdge && i % 2 == 1 ==> !pages[i - 1].setup.mirrorBackside && !pages[i].setup.mirrorBackside
  }

  lemma NotMirrored(gen: PclmGenerator, pages: seq<PageJob>, i: nat)
    requires i < |pages| && gen.pageCount == i && Unmirrored(pages, i)
    requires i > 0 ==> gen.mirrorBackside == pages[i - 1].setup.mirrorBackside
    ensures !gen.MirrorsNext(pages[i].setup)
  {
  }

  lemma NothingLeft(gen: PclmGenerator, pages: seq<PageJob>)
    requires !gen.hasLeftover
    ensures Keeps(gen, RestBefore(pages, 0))
  {
  }

  lemma PageWritten(pages: seq<PageJob>, i: nat)
    requires i < |pages|
    ensures var w := AllWritten(pages);
            && |w| == |pages| && w[i] == pages[i].Written(RestBefore(pages, i))
            && (w[i].Inked() <==> pages[i].Inked()) && (w[i].Adobe() <==> pages[i].Adobe())
    ensures RestBefore(pages, i + 1) == pages[i].RestAt(RestBefore(pages, i), |pages[i].strips|)
  {
    WrittenInked(pages[i], RestBefore(pages, i));
    hide PageJob.Written, PageJob.RestAt, PageJob.Inked;
  }

  /** A job of plain pages, as the plugin prints them, is written as it is. */
  lemma {:induction false} PlainJob(pages: seq<PageJob>, i: nat)
    requires i <= |pages| && forall k | 0 <= k < |pages| :: pages[k].Plain()
    ensures RestBefore(pages, i) == None
    ensures i < |pages| ==> pages[i].Feasible(None) && AllWritten(pages)[i] == pages[i]
  {
    hide PageJob.Plain, PageJob.Feasible, PageJob.Written, PageJob.RestAt;
    if i > 0 {
      PlainJob(pages, i - 1);
      PlainRests(pages[i - 1], |pages[i - 1].strips|);
    }
    if i < |pages| {
      PlainIsWritten(pages[i]);
    }
  }

  lemma PlainPages(pages: seq<PageJob>)
    requires forall k | 0 <= k < |pages| :: pages[k].Plain()
    ensures forall i | 0 <= i < |pages| :: pages[i].Feasible(RestBefore(pages, i))
    ensures AllWritten(pages) == pages
  {
    forall i: nat | i < |pages|
      ensures pages[i].Feasible(RestBefore(pages, i)) && AllWritten(pages)[i] == pages[i]
    {
      PlainJob(pages, i);
    }
  }

  /** `StartJob`, the pages, `EndJob`, for any pages with any number of strips. A reader who starts at the end of
      the output finds every page, its contents and its strips, as long as the cross-reference section starts
      below 2^31; from there on it does not find the section. Which images of a page are its strips, and when
      object 5 is the colour space that AdobeRGB strips name, is stated exactly. */
  method PrintJob(profile: string, pages: seq<PageJob>)
    returns (out: string, ghost logs: seq<PageLog>, ghost objects: seq<string>, ghost start: nat)
    requires forall i | 0 <= i < |pages| :: pages[i].Feasible(RestBefore(pages, i)) && Unmirrored(pages, i)
    ensures ProfileAt(objects, 5, profile) <==> pages != [] && pages[0].Inked()
    ensures AllLogged(AllWritten(pages), |pages|, logs, objects)
    ensures "%PDF-1.7\n%PCLm 1.0\n" <= out && start <= |out| && "xref\n" <= out[start..]
    ensures ReadStart(out) == Some(start) <==> start < INT32
    ensures start < INT32 ==> ReadsAs(out, start, Bodies(PageObjects(logs), objects)) && JobShows(out, AllWritten(pages), logs, profile)
  {
    var gen := new PclmGenerator(profile);
    hide *;
    out := gen.StartJob();
    logs := [];
    ghost var written := AllWritten(pages);
    NoPagesYet(gen, written);
    NothingLeft(gen, pages);
    var i := 0;
    while i < |pages|
      invariant 0 <= i <= |pages| && gen.Valid() && gen.Settled() && Keeps(gen, RestBefore(pages, i)) && gen.file == out
      invariant i > 0 ==> gen.mirrorBackside == pages[i - 1].setup.mirrorBackside
      invariant gen.pageCount == i && gen.profile == profile && "%PDF-1.7\n%PCLm 1.0\n" <= out
      invariant gen.kids == PageObjects(logs)
      invariant AllLogged(written, i, logs, gen.objects) && Colored(gen, written, i)
    {
      ghost var due, before, counter, icc := gen.adobeFirstTime, gen.objects, gen.objCounter, gen.iccObj;
      ColoredMeans(gen, written, i);
      NotMirrored(gen, pages, i);
      PageWritten(pages, i);
      var page, log := PrintPage(gen, pages[i], RestBefore(pages, i));
      LogPage(written, i, logs, log, before, gen.objects, due);
      ColorPage(gen, written, i, due, counter, icc);
      out := out + page;
      logs := logs + [log];
      i := i + 1;
    }
    objects := gen.objects;
    gen.ProfileStands();
    FirstProfile(gen, written, profile);
    if pages != [] {
      PageWritten(pages, 0);
    }
    var tail;
    tail, start := gen.EndJob();
    if start < INT32 {
      AllShows(gen.file, start, written, logs, objects, profile);
    }
    HeaderStays(out, tail);
    out := out + tail;
  }

  lemma HeaderStays(out: string, tail: string)
    ensures "%PDF-1.7\n%PCLm 1.0\n" <= out ==> "%PDF-1.7\n%PCLm 1.0\n" <= out + tail
  {
  }

  lemma NoPagesYet(gen: PclmGenerator, pages: seq<PageJob>)
    requires gen.objCounter == 3 && gen.adobeFirstTime && gen.iccObj == 0 && gen.objects == []
    ensures AllLogged(pages, 0, [], gen.objects) && Colored(gen, pages, 0) && PageObjects([]) == []
  {
  }

  lemma ColoredMeans(gen: PclmGenerator, pages: seq<PageJob>, n: nat)
    requires Colored(gen, pages, n)
    ensures n <= |pages| && gen.objCounter >= 3 + 2 * n && (n == 0 ==> gen.objCounter == 3)
    ensures gen.adobeFirstTime <==> NoneInked(pages[..n])
    ensures gen.adobeFirstTime ==> gen.iccObj == 0
    ensures !gen.adobeFirstTime ==> (gen.iccObj == 5 <==> pages != [] && pages[0].Inked())
  {
  }

  lemma ColorPage(gen: PclmGenerator, pages: seq<PageJob>, i: nat, due: bool, counter: nat, icc: nat)
    requires i < |pages| && counter >= 3 + 2 * i && (i == 0 ==> counter == 3) && gen.objCounter >= counter + 2
    requires due <==> NoneInked(pages[..i])
    requires due ==> icc == 0
    requires !due ==> (icc == 5 <==> pages[0].Inked())
    requires ColorAfter(gen, pages[i].Inked(), due, counter + 2, icc)
    ensures Colored(gen, pages, i + 1)
  {
    hide PageJob.Inked;
    assert pages[..i + 1] == pages[..i] + [pages[i]];
    assert pages[i] in pages[..i + 1] && forall q | q in pages[..i] :: q in pages[..i + 1];
    if i > 0 {
      assert pages[0] in pages[..i];
    }
  }

  /** One more page: its entry joins the log, and the earlier entries stay good. */
  lemma LogPage(pages: seq<PageJob>, i: nat, logs: seq<PageLog>, log: PageLog, before: seq<string>,
                objects: seq<string>, due: bool)
    requires i < |pages| && AllLogged(pages, i, logs, before) && before <= objects
    requires Logged(pages[i], log, objects) && (due <==> NoneInked(pages[..i]))
    requires ResolvesIff(pages[i], log, pages[i].Adobe() ==> (due <==> i == 0))
    ensures PageObjects(logs + [log]) == PageObjects(logs) + [log.page]
    ensures AllLogged(pages, i + 1, logs + [log], objects)
  {
    hide Logged, ResolvesIff, PageJob.Adobe, NoneInked;
    forall k | 0 <= k < i
      ensures Logged(pages[k], logs[k], objects)
    {
      LoggedGrows(pages[k], logs[k], before, objects);
    }
  }

  lemma FirstProfile(gen: PclmGenerator, pages: seq<PageJob>, profile: string)
    requires Colored(gen, pages, |pages|) && Dictionaries(gen.objects, gen.iccObj)
    requires !gen.adobeFirstTime ==> ProfileAt(gen.objects, gen.iccObj, profile)
    ensures ProfileAt(gen.objects, 5, profile) <==> pages != [] && pages[0].Inked()
  {
    hide ProfileAt, Dictionaries, PageJob.Inked;
    if gen.iccObj != 5 {
      NoOtherProfile(gen.objects, gen.iccObj, 5, profile);
    }
    assert pages[..|pages|] == pages;
    if pages != [] {
      assert pages[0] in pages;
    }
  }

  // ----- what follows for pages of a given kind -----

  /** The page brings exactly the strips its setup announces. */
  ghost predicate Complete(p: PageJob) {
    p.setup.Printable() && 0 < |p.strips| == p.setup.StripCount()
  }

  ghost predicate FirstOrNone(pages: seq<PageJob>) { forall p | p in pages :: p.Adobe() ==> pages[0].Adobe() }

  /** If every page is complete, all images are the strips they should be if and only if the first page or no
      page is in AdobeRGB. */
  lemma CompleteJobs(pages: seq<PageJob>, logs: seq<PageLog>, objects: seq<string>)
    requires AllLogged(pages, |pages|, logs, objects)
    requires forall i | 0 <= i < |pages| :: Complete(pages[i])
    ensures (forall i | 0 <= i < |pages| :: logs[i].refs == logs[i].objs) <==> FirstOrNone(pages)
  {
    hide Logged, ResolvesIff, Complete, InStep, FirstOrNone, PageJob.Inked, PageJob.Adobe;
    forall i | 0 <= i < |pages|
      ensures logs[i].refs == logs[i].objs <==> InStep(pages, i)
    {
      CompleteResolves(pages[i], logs[i], InStep(pages, i));
    }
    forall i | 0 <= i < |pages|
      ensures pages[i].Inked() <==> pages[i].Adobe()
    {
      CompleteMeans(pages[i]);
    }
    AllInStepIff(pages);
  }

  lemma CompleteMeans(p: PageJob)
    requires Complete(p)
    ensures p.Inked() <==> p.Adobe()
  {
    hide PageSetup.Printable, PageSetup.StripCount;
  }

  lemma AllInStepIff(pages: seq<PageJob>)
    requires forall i | 0 <= i < |pages| :: pages[i].Inked() <==> pages[i].Adobe()
    ensures (forall i | 0 <= i < |pages| :: InStep(pages, i)) <==> FirstOrNone(pages)
  {
    hide PageJob.Adobe, PageJob.Inked;
    if FirstOrNone(pages) {
      forall i | 0 <= i < |pages|
        ensures InStep(pages, i)
      {
        if i > 0 && pages[i].Adobe() {
          assert pages[i] in pages && pages[0] in pages[..i];
        }
      }
    } else {
      LatecomerFails(pages);
    }
  }

  lemma CompleteResolves(p: PageJob, log: PageLog, inStep: bool)
    requires Complete(p) && ResolvesIff(p, log, inStep)
    ensures log.refs == log.objs <==> inStep
  {
    HeightCount(p.setup);
    hide PageSetup.MarginHeights, PageSetup.Heights, PageSetup.StripCount, PageSetup.Printable;
  }

  /** The first AdobeRGB page after a first page that is not is out of step. */
  lemma LatecomerFails(pages: seq<PageJob>)
    requires !FirstOrNone(pages)
    requires forall i | 0 <= i < |pages| :: pages[i].Inked() <==> pages[i].Adobe()
    ensures exists i | 0 <= i < |pages| :: !InStep(pages, i)
  {
    hide PageJob.Adobe, PageJob.Inked;
    var i: nat := 0;
    while i < |pages| && !pages[i].Adobe()
      invariant 0 <= i <= |pages| && forall k | 0 <= k < i :: !pages[k].Adobe()
    {
      i := i + 1;
    }
    assert !InStep(pages, i);
  }

  /** The blank page of `_end_page`: no picture, and one white line all the same. */
  function BlankPage(s: PageSetup, ticket: string, blank: nat -> string, data: string): PageJob {
    PageJob(s.(sourceHeight := 0), ticket, blank, [Strip(1, data, true)])
  }

  /** It can be printed; it names its margin strips only, and its white line stands in the file unnamed. */
  lemma BlankPagePrints(s: PageSetup, ticket: string, blank: nat -> string, data: string)
    requires s.stripHeight > 0
    ensures var p := BlankPage(s, ticket, blank, data);
            p.Plain() && p.setup.SourceHeights() == [] && p.EnoughStrips() && !p.NoExtraStrips()
  {
    StripCountIsLeast(0, s.stripHeight);
  }

  /** A page of one strip of sixteen lines. */
  function Sample(color: ColorSpace): PageJob {
    PageJob(PageSetup(16, 8, 612, 792, Res300, 0, 16, color, Rle, false, false), "", _ => "", [Strip(16, "", false)])
  }

  lemma SampleIsPlain(color: ColorSpace)
    ensures Sample(color).Plain() && !Sample(color).setup.longEdge
  {
  }

  lemma SampleMeans(color: ColorSpace)
    ensures var p := Sample(color);
            && p.setup.Printable() && |p.setup.Heights()| > 0
            && (p.Adobe() <==> color == AdobeRGB) && (p.Inked() <==> color == AdobeRGB)
  {
    HeightCount(Sample(color).setup);
    hide PageSetup.Heights, PageSetup.MarginHeights;
  }

  lemma SecondFails(first: PageJob, logs: seq<PageLog>, objects: seq<string>)
    requires AllLogged([first, Sample(AdobeRGB)], 2, logs, objects) && !first.Inked()
    ensures |logs| == 2 && !(logs[1].refs <= logs[1].objs)
  {
    hide Sample, Logged, ResolvesIff, InStep, PageJob.Adobe, PageJob.Inked;
    var pages := [first, Sample(AdobeRGB)];
    SampleMeans(AdobeRGB);
    assert !InStep(pages, 1) by { OutOfStep(pages); }
    assert ResolvesIff(pages[1], logs[1], InStep(pages, 1));
    ResolvesMeans(pages[1], logs[1], false);
  }

  lemma NeverMirrored(pages: seq<PageJob>)
    requires forall k | 0 <= k < |pages| :: !pages[k].setup.longEdge
    ensures forall k | 0 <= k < |pages| :: Unmirrored(pages, k)
  {
  }

  lemma OutOfStep(pages: seq<PageJob>)
    requires |pages| == 2 && !pages[0].Inked() && pages[1].Adobe()
    ensures !InStep(pages, 1)
  {
    hide PageJob.Adobe, PageJob.Inked;
    assert pages[..1] == [pages[0]];
  }

  /** An AdobeRGB page after an RGB page: its one image is not its strip. */
  method LateProfileFails(profile: string)
    returns (out: string, ghost logs: seq<PageLog>)
    ensures |logs| == 2 && !(logs[1].refs <= logs[1].objs)
  {
    hide *;
    SampleMeans(DeviceRGB);
    SampleIsPlain(DeviceRGB);
    SampleIsPlain(AdobeRGB);
    var pages := [Sample(DeviceRGB), Sample(AdobeRGB)];
    PlainPages(pages);
    NeverMirrored(pages);
    ghost var objects, start;
    out, logs, objects, start := PrintJob(profile, pages);
    SecondFails(Sample(DeviceRGB), logs, objects);
  }

  /** A page of which nothing could be decoded. */
  function Undecoded(p: PageJob): PageJob { p.(strips := []) }

  lemma UndecodedMeans(p: PageJob)
    requires p.Plain()
    ensures Undecoded(p).Plain() && Undecoded(p).setup == p.setup && !Undecoded(p).Inked()
  {
    hide PageSetup.Printable, PageSetup.StripHeight;
  }

  /** A job in AdobeRGB whose first page could not be decoded: the image of the second is not its strip. */
  method UndecodedFirstPageFails(profile: string)
    returns (out: string, ghost logs: seq<PageLog>)
    ensures |logs| == 2 && !(logs[1].refs <= logs[1].objs)
  {
    hide *;
    SampleIsPlain(AdobeRGB);
    UndecodedMeans(Sample(AdobeRGB));
    var pages := [Undecoded(Sample(AdobeRGB)), Sample(AdobeRGB)];
    PlainPages(pages);
    NeverMirrored(pages);
    ghost var objects, start;
    out, logs, objects, start := PrintJob(profile, pages);
    SecondFails(Undecoded(Sample(AdobeRGB)), logs, objects);
  }
}
