/**
 * HighlightExtractorThread.run: walk the pages of an opened document, turn
 * every highlight annotation with visible text into a record, and report
 * progress, then either the records or the error, as an ordered event log.
 *
 * The PDF library is abstracted: a document is the list of its pages as the
 * library would hand them out (or the reason it could not be opened), a page
 * is the list of its annotations (or the reason it could not be loaded), and
 * an annotation carries what run() asks of it: its type code, the text under
 * its rectangle, its stroke colour if it has one, whether it has a popup and
 * the popup's content.
 */
module Extractor {
  import opened Wrappers
  import opened Text
  import opened Palette

  /** The annotation type code of a highlight. */
  const HighlightType: int := 8

  /**
   * What run() reads from one annotation. clipText is what get_text returns
   * for the annotation's rectangle; stroke is None when the colour dictionary
   * has no "stroke" key; content is "" when the info dictionary has no
   * "content" key.
   */
  datatype Annot = Annot(typeCode: int, clipText: Str, stroke: Option<seq<real>>, hasPopup: bool, content: Str)

  datatype Page = Page(annots: seq<Annot>) | PageFailed(reason: string)

  datatype Document = Document(pages: seq<Page>) | OpenFailed(reason: string)

  /** One extracted highlight: the dictionary with keys page, text, category and comment. */
  datatype Record = Record(page: int, text: Str, category: string, comment: Str)

  /** The signals the thread emits: progress(current, total), finished(list), error(str). */
  datatype Event = Progress(current: int, total: int) | Finished(records: seq<Record>) | Failed(message: string)

  // ---------------------------------------------------------------------
  // One annotation
  // ---------------------------------------------------------------------

  /** colors.get("stroke", [0, 0, 0]) */
  function StrokeOf(a: Annot): seq<real> {
    if a.stroke.Some? then a.stroke.value else Black
  }

  /** info.get("content", "").strip() if has_popup else "" */
  function CommentOf(a: Annot): Str {
    if a.hasPopup then Strip(a.content) else []
  }

  /** A highlight whose stroke colour has more than three channels cannot be categorised. */
  predicate Classifiable(a: Annot) {
    a.typeCode != HighlightType || |StrokeOf(a)| <= 3
  }

  /** A highlight is kept exactly when its cleaned text is not empty. */
  predicate Kept(a: Annot) {
    a.typeCode == HighlightType && Clean(a.clipText) != []
  }

  /** The record a kept, categorisable highlight on page pageNo becomes. */
  function RecordOf(a: Annot, pageNo: int): Record
    requires a.typeCode == HighlightType && Classifiable(a)
  {
    Record(pageNo, Clean(a.clipText), Classify(StrokeOf(a)).value, CommentOf(a))
  }

  /**
   * The body of the inner loop for one annotation, in the source's order:
   * the text is cleaned and the colour categorised before the text is
   * tested, so a bad colour raises even when the text is empty.
   */
  function Process(a: Annot, pageNo: int): Result<Option<Record>> {
    if a.typeCode != HighlightType then Ok(None)
    else
      var text := Clean(a.clipText);
      match Classify(StrokeOf(a))
      case Err(msg) => Err(msg)
      case Ok(_) =>
        if text == [] then Ok(None) else Ok(Some(RecordOf(a, pageNo)))
  }

  // ---------------------------------------------------------------------
  // One page, and the whole document
  // ---------------------------------------------------------------------

  function Prepend(found: seq<Record>, r: Result<seq<Record>>): Result<seq<Record>> {
    match r
    case Ok(rest) => Ok(found + rest)
    case Err(msg) => Err(msg)
  }

  function Found(x: Option<Record>): seq<Record> {
    if x.Some? then [x.value] else []
  }

  /** The inner loop over a page's annotations: the records in order, or the first error. */
  function ScanPage(annots: seq<Annot>, pageNo: int): Result<seq<Record>> {
    if annots == [] then Ok([])
    else
      match Process(annots[0], pageNo)
      case Err(msg) => Err(msg)
      case Ok(x) => Prepend(Found(x), ScanPage(annots[1..], pageNo))
  }

  /** What loading and scanning one page gives: its records, or the message of what it raised. */
  function PageResult(page: Page, pageNo: int): Result<seq<Record>> {
    match page
    case PageFailed(reason) => Err(reason)
    case Page(annots) => ScanPage(annots, pageNo)
  }

  /** The result of every page of a document, page k numbered k + 1. */
  function Outcomes(pages: seq<Page>): (outs: seq<Result<seq<Record>>>)
    ensures |outs| == |pages|
    ensures forall k :: 0 <= k < |pages| ==> outs[k] == PageResult(pages[k], k + 1)
  {
    seq(|pages|, k requires 0 <= k < |pages| => PageResult(pages[k], k + 1))
  }

  /**
   * The outer loop from page index k on, given the result of every page and
   * the records acc collected on the earlier pages: progress is reported
   * before the page is loaded, and the first page that raises ends the run.
   */
  function Trace(outs: seq<Result<seq<Record>>>, k: nat, acc: seq<Record>): seq<Event>
    requires k <= |outs|
    decreases |outs| - k
  {
    if k == |outs| then [Finished(acc)]
    else
      [Progress(k + 1, |outs|)] +
      match outs[k]
      case Err(msg) => [Failed(msg)]
      case Ok(found) => Trace(outs, k + 1, acc + found)
  }

  /** Everything run() emits for a document, in order. */
  function Events(doc: Document): seq<Event> {
    match doc
    case OpenFailed(reason) => [Failed(reason)]
    case Document(pages) => Trace(Outcomes(pages), 0, [])
  }

  lemma ScanStep(annots: seq<Annot>, i: nat, pageNo: int)
    requires i < |annots|
    ensures ScanPage(annots[i..], pageNo) ==
      match Process(annots[i], pageNo)
      case Err(msg) => Err(msg)
      case Ok(x) => Prepend(Found(x), ScanPage(annots[i + 1..], pageNo))
  {
    assert annots[i..][0] == annots[i];
    assert annots[i..][1..] == annots[i + 1..];
  }

  lemma PrependTwice(found: seq<Record>, more: seq<Record>, r: Result<seq<Record>>)
    ensures Prepend(found, Prepend(more, r)) == Prepend(found + more, r)
  {
    if r.Ok? {
      assert found + (more + r.value) == (found + more) + r.value;
    }
  }

  lemma PrependNothing(r: Result<seq<Record>>)
    ensures Prepend([], r) == r
  {
    if r.Ok? {
      assert [] + r.value == r.value;
    }
  }

  lemma TraceStep(outs: seq<Result<seq<Record>>>, k: nat, acc: seq<Record>)
    requires k < |outs|
    ensures outs[k].Ok? ==> Trace(outs, k, acc) == [Progress(k + 1, |outs|)] + Trace(outs, k + 1, acc + outs[k].value)
    ensures outs[k].Err? ==> Trace(outs, k, acc) == [Progress(k + 1, |outs|), Failed(outs[k].msg)]
  {
  }

  /**
   * The inner loop of run() over one page's annotations: the records found
   * on the page in annotation order, or the error of the first highlight
   * that cannot be categorised.
   */
  method ScanAnnotations(annots: seq<Annot>, pageNo: int) returns (r: Result<seq<Record>>)
    ensures r == ScanPage(annots, pageNo)
  {
    var found: seq<Record> := [];
    var i := 0;
    assert annots[i..] == annots;
    PrependNothing(ScanPage(annots, pageNo));
    while i < |annots|
      invariant 0 <= i <= |annots|
      invariant ScanPage(annots, pageNo) == Prepend(found, ScanPage(annots[i..], pageNo))
    {
      var annot := annots[i];
      ghost var rest := ScanPage(annots[i + 1..], pageNo);
      ScanStep(annots, i, pageNo);
      if annot.typeCode == HighlightType {
        var highlightText := Clean(annot.clipText);
        var colorRgb := StrokeOf(annot);
        var category := Classify(colorRgb);
        if category.Err? {
          assert Process(annot, pageNo) == Err(category.msg);
          return Err(category.msg);
        }
        var comment := CommentOf(annot);
        if highlightText != [] {
          var record := Record(pageNo, highlightText, category.value, comment);
          assert Process(annot, pageNo) == Ok(Some(record));
          PrependTwice(found, [record], rest);
          found := found + [record];
        } else {
          assert Process(annot, pageNo) == Ok(None);
          PrependTwice(found, [], rest);
          assert found + [] == found;
        }
      } else {
        PrependTwice(found, [], rest);
        assert found + [] == found;
      }
      i := i + 1;
    }
    assert annots[i..] == [];
    assert found + [] == found;
    return Ok(found);
  }

  lemma LogAssoc(a: seq<Event>, b: seq<Event>, c: seq<Event>)
    ensures (a + b) + c == a + (b + c)
  {
  }

  lemma TraceEnd(outs: seq<Result<seq<Record>>>, acc: seq<Record>)
    ensures Trace(outs, |outs|, acc) == [Finished(acc)]
  {
  }

  /** One turn of the outer loop, as the log sees it: the page's progress event, then its error or the rest of the run. */
  lemma RunStep(outs: seq<Result<seq<Record>>>, k: nat, acc: seq<Record>, before: seq<Event>)
    requires k < |outs|
    requires before + Trace(outs, k, acc) == Trace(outs, 0, [])
    ensures outs[k].Err? ==> (before + [Progress(k + 1, |outs|)]) + [Failed(outs[k].msg)] == Trace(outs, 0, [])
    ensures outs[k].Ok? ==>
      (before + [Progress(k + 1, |outs|)]) + Trace(outs, k + 1, acc + outs[k].value) == Trace(outs, 0, [])
  {
    TraceStep(outs, k, acc);
    if outs[k].Err? {
      LogAssoc(before, [Progress(k + 1, |outs|)], [Failed(outs[k].msg)]);
    } else {
      LogAssoc(before, [Progress(k + 1, |outs|)], Trace(outs, k + 1, acc + outs[k].value));
    }
  }

  /** run(): open the document, then the outer loop over its pages, emitting into log. */
  method Run(doc: Document) returns (log: seq<Event>)
    ensures log == Events(doc)
  {
    if doc.OpenFailed? {
      log := [Failed(doc.reason)];
      return;
    }
    var pages := doc.pages;
    ghost var outs := Outcomes(pages);
    var totalPages := |pages|;
    var highlights: seq<Record> := [];
    log := [];
    var pageNum := 0;
    while pageNum < totalPages
      invariant 0 <= pageNum <= totalPages
      invariant log + Trace(outs, pageNum, highlights) == Trace(outs, 0, [])
    {
      RunStep(outs, pageNum, highlights, log);
      log := log + [Progress(pageNum + 1, totalPages)];
      var page := pages[pageNum];
      if page.PageFailed? {
        assert outs[pageNum] == Err(page.reason);
        log := log + [Failed(page.reason)];
        return;
      }
      var found := ScanAnnotations(page.annots, pageNum + 1);
      assert outs[pageNum] == found;
      if found.Err? {
        log := log + [Failed(found.msg)];
        return;
      }
      highlights := highlights + found.value;
      pageNum := pageNum + 1;
    }
    TraceEnd(outs, highlights);
    log := log + [Finished(highlights)];
  }

  // ---------------------------------------------------------------------
  // One annotation: what it contributes
  // ---------------------------------------------------------------------

  /** What the record of a page carries besides its page number. */
  predicate WellFormed(r: Record) {
    r.text != [] && Newline !in r.text && !Occurs(r.text, Mojibake) && r.category in Labels
  }

  /**
   * An annotation raises exactly when it is a highlight whose colour has
   * more than three channels, whatever its text; otherwise it yields a
   * record exactly when it is a highlight with non-empty cleaned text.
   */
  lemma ProcessOutcome(a: Annot, pageNo: int)
    ensures !Classifiable(a) ==> Process(a, pageNo) == Err(IndexErrorMessage)
    ensures Classifiable(a) && Kept(a) ==> Process(a, pageNo) == Ok(Some(RecordOf(a, pageNo)))
    ensures Classifiable(a) && !Kept(a) ==> Process(a, pageNo) == Ok(None)
  {
  }

  /**
   * A record holds the page number it was found on, cleaned non-empty text,
   * one of the five labels (the one of the nearest palette colour), and the
   * stripped popup content or nothing.
   */
  lemma RecordOfSpec(a: Annot, pageNo: int)
    requires Kept(a) && Classifiable(a)
    ensures RecordOf(a, pageNo).page == pageNo && RecordOf(a, pageNo).text == Clean(a.clipText)
    ensures WellFormed(RecordOf(a, pageNo))
    ensures Classify(StrokeOf(a)) == Ok(RecordOf(a, pageNo).category)
    ensures a.hasPopup ==> IsStripOf(a.content, RecordOf(a, pageNo).comment)
    ensures !a.hasPopup ==> RecordOf(a, pageNo).comment == []
  {
    CleanOutput(a.clipText);
    ClassifyRange(StrokeOf(a));
    StripSpec(a.content);
  }

  // ---------------------------------------------------------------------
  // One page: the records it yields, or the error
  // ---------------------------------------------------------------------

  predicate AllClassifiable(annots: seq<Annot>) {
    forall j :: 0 <= j < |annots| ==> Classifiable(annots[j])
  }

  lemma AllClassifiableCons(annots: seq<Annot>)
    requires annots != []
    ensures AllClassifiable(annots) <==> Classifiable(annots[0]) && AllClassifiable(annots[1..])
  {
    assert forall j :: 0 < j < |annots| ==> annots[j] == annots[1..][j - 1];
  }

  /** The records of a page on which nothing raises: one per kept highlight, in order. */
  function PageRecords(annots: seq<Annot>, pageNo: int): seq<Record>
    requires AllClassifiable(annots)
  {
    if annots == [] then []
    else (if Kept(annots[0]) then [RecordOf(annots[0], pageNo)] else []) + PageRecords(annots[1..], pageNo)
  }

  /**
   * The inner loop raises IndexError exactly when some highlight on the page
   * has a colour of more than three channels; otherwise its records are the
   * page's kept highlights, in order.
   */
  lemma {:induction false} ScanPageSpec(annots: seq<Annot>, pageNo: int)
    ensures AllClassifiable(annots) ==> ScanPage(annots, pageNo) == Ok(PageRecords(annots, pageNo))
    ensures !AllClassifiable(annots) ==> ScanPage(annots, pageNo) == Err(IndexErrorMessage)
  {
    if annots != [] {
      var tail := annots[1..];
      ScanPageSpec(tail, pageNo);
      ProcessOutcome(annots[0], pageNo);
      AllClassifiableCons(annots);
    }
  }

  /** Every record of a page carries that page's number and is well formed; none is invented. */
  lemma {:induction false} PageRecordsFacts(annots: seq<Annot>, pageNo: int)
    requires AllClassifiable(annots)
    ensures forall r :: r in PageRecords(annots, pageNo) ==> r.page == pageNo && WellFormed(r)
  {
    if annots != [] {
      AllClassifiableCons(annots);
      PageRecordsFacts(annots[1..], pageNo);
      if Kept(annots[0]) {
        RecordOfSpec(annots[0], pageNo);
      }
    }
  }

  /** No annotation of the list is kept. */
  predicate NoneKept(annots: seq<Annot>) {
    forall j :: 0 <= j < |annots| ==> !Kept(annots[j])
  }

  lemma NoneKeptCons(annots: seq<Annot>)
    requires annots != []
    ensures NoneKept(annots) <==> !Kept(annots[0]) && NoneKept(annots[1..])
  {
    assert forall j :: 0 < j < |annots| ==> annots[j] == annots[1..][j - 1];
  }

  /** A page yields no record exactly when none of its annotations is kept; never more records than annotations. */
  lemma {:induction false} PageRecordsEmpty(annots: seq<Annot>, pageNo: int)
    requires AllClassifiable(annots)
    ensures |PageRecords(annots, pageNo)| <= |annots|
    ensures PageRecords(annots, pageNo) == [] <==> NoneKept(annots)
  {
    if annots != [] {
      AllClassifiableCons(annots);
      NoneKeptCons(annots);
      PageRecordsEmpty(annots[1..], pageNo);
    }
  }

  // ---------------------------------------------------------------------
  // The whole document
  // ---------------------------------------------------------------------

  /** A page that loads and on which nothing raises. */
  predicate PageOk(page: Page) {
    page.Page? && AllClassifiable(page.annots)
  }

  /** The message of the exception a page raises. */
  function Reason(page: Page): string
    requires !PageOk(page)
  {
    if page.PageFailed? then page.reason else IndexErrorMessage
  }

  predicate PagesOk(pages: seq<Page>, k: nat) {
    forall i :: k <= i < |pages| ==> PageOk(pages[i])
  }

  /** The records of pages k.. of a document on which nothing raises, page after page. */
  function DocRecords(pages: seq<Page>, k: nat): seq<Record>
    requires k <= |pages| && PagesOk(pages, k)
    decreases |pages| - k
  {
    if k == |pages| then [] else PageRecords(pages[k].annots, k + 1) + DocRecords(pages, k + 1)
  }

  /** The progress events for the pages from..to-1, each out of total. */
  function ProgressRange(from: nat, to: nat, total: int): (log: seq<Event>)
    requires from <= to
    ensures |log| == to - from
    ensures forall i :: 0 <= i < |log| ==> log[i] == Progress(from + i + 1, total)
  {
    seq(to - from, i requires 0 <= i < to - from => Progress(from + i + 1, total))
  }

  lemma ProgressRangeCons(from: nat, to: nat, total: int)
    requires from < to
    ensures ProgressRange(from, to, total) == [Progress(from + 1, total)] + ProgressRange(from + 1, to, total)
  {
    var l := ProgressRange(from, to, total);
    var r := [Progress(from + 1, total)] + ProgressRange(from + 1, to, total);
    assert |l| == |r|;
    forall i | 0 <= i < |l| ensures l[i] == r[i] {
      if i > 0 {
        assert r[i] == ProgressRange(from + 1, to, total)[i - 1];
      }
    }
  }

  predicate AllOk(outs: seq<Result<seq<Record>>>, k: nat) {
    forall i :: k <= i < |outs| ==> outs[i].Ok?
  }

  /** The records of the pages from k on, page after page. */
  function Collected(outs: seq<Result<seq<Record>>>, k: nat): seq<Record>
    requires k <= |outs| && AllOk(outs, k)
    decreases |outs| - k
  {
    if k == |outs| then [] else outs[k].value + Collected(outs, k + 1)
  }

  /** When no page from k on raises, the loop reports every page and then finishes with all records. */
  lemma {:induction false} TraceSucceeds(outs: seq<Result<seq<Record>>>, k: nat, acc: seq<Record>)
    requires k <= |outs| && AllOk(outs, k)
    ensures Trace(outs, k, acc) == ProgressRange(k, |outs|, |outs|) + [Finished(acc + Collected(outs, k))]
    decreases |outs| - k
  {
    if k == |outs| {
      assert acc + [] == acc;
    } else {
      var found := outs[k].value;
      TraceStep(outs, k, acc);
      TraceSucceeds(outs, k + 1, acc + found);
      ProgressRangeCons(k, |outs|, |outs|);
      assert (acc + found) + Collected(outs, k + 1) == acc + Collected(outs, k);
      LogAssoc([Progress(k + 1, |outs|)], ProgressRange(k + 1, |outs|, |outs|),
        [Finished(acc + Collected(outs, k))]);
    }
  }

  /**
   * When page b is the first from k on that raises, the loop reports pages
   * up to and including b and then the exception's message.
   */
  lemma {:induction false} TraceFails(outs: seq<Result<seq<Record>>>, k: nat, acc: seq<Record>, b: nat)
    requires k <= b < |outs| && outs[b].Err?
    requires forall i :: k <= i < b ==> outs[i].Ok?
    ensures Trace(outs, k, acc) == ProgressRange(k, b + 1, |outs|) + [Failed(outs[b].msg)]
    decreases b - k
  {
    ProgressRangeCons(k, b + 1, |outs|);
    TraceStep(outs, k, acc);
    if k == b {
      assert ProgressRange(k + 1, b + 1, |outs|) == [];
    } else {
      TraceFails(outs, k + 1, acc + outs[k].value, b);
      LogAssoc([Progress(k + 1, |outs|)], ProgressRange(k + 1, b + 1, |outs|), [Failed(outs[b].msg)]);
    }
  }

  /** A page raises exactly when it fails to load or holds a highlight that cannot be categorised. */
  lemma PageResultSpec(page: Page, pageNo: int)
    ensures PageOk(page) ==> PageResult(page, pageNo) == Ok(PageRecords(page.annots, pageNo))
    ensures !PageOk(page) ==> PageResult(page, pageNo) == Err(Reason(page))
  {
    if page.Page? {
      ScanPageSpec(page.annots, pageNo);
    }
  }

  /** For pages that raise nothing, the records collected are those of DocRecords. */
  lemma {:induction false} CollectedDocRecords(pages: seq<Page>, k: nat)
    requires k <= |pages| && PagesOk(pages, k)
    ensures AllOk(Outcomes(pages), k)
    ensures Collected(Outcomes(pages), k) == DocRecords(pages, k)
    decreases |pages| - k
  {
    var outs := Outcomes(pages);
    forall i | k <= i < |pages| ensures outs[i].Ok? {
      PageResultSpec(pages[i], i + 1);
    }
    if k < |pages| {
      PageResultSpec(pages[k], k + 1);
      CollectedDocRecords(pages, k + 1);
    }
  }

  /** The first page from k on that raises. */
  function FirstFailure(pages: seq<Page>, k: nat): (b: nat)
    requires k <= |pages| && !PagesOk(pages, k)
    ensures k <= b < |pages| && !PageOk(pages[b])
    ensures forall i :: k <= i < b ==> PageOk(pages[i])
    decreases |pages| - k
  {
    if !PageOk(pages[k]) then k else FirstFailure(pages, k + 1)
  }

  /** The document opens and no page raises. */
  predicate Succeeds(doc: Document) {
    doc.Document? && PagesOk(doc.pages, 0)
  }

  /** page_count, for a document that opens. */
  function Total(doc: Document): nat {
    if doc.Document? then |doc.pages| else 0
  }

  /** A run that raises nothing reports every page and then finishes with the records of all pages. */
  lemma EventsSucceed(doc: Document)
    requires Succeeds(doc)
    ensures Events(doc) == ProgressRange(0, |doc.pages|, |doc.pages|) + [Finished(DocRecords(doc.pages, 0))]
  {
    CollectedDocRecords(doc.pages, 0);
    TraceSucceeds(Outcomes(doc.pages), 0, []);
    assert [] + DocRecords(doc.pages, 0) == DocRecords(doc.pages, 0);
  }

  /**
   * A run in which page b is the first to raise reports pages 1..b+1 and
   * then the exception's message; no records are delivered.
   */
  lemma EventsFail(doc: Document, b: nat)
    requires doc.Document? && b < |doc.pages| && !PageOk(doc.pages[b])
    requires forall i :: 0 <= i < b ==> PageOk(doc.pages[i])
    ensures Events(doc) == ProgressRange(0, b + 1, |doc.pages|) + [Failed(Reason(doc.pages[b]))]
  {
    var outs := Outcomes(doc.pages);
    forall i | 0 <= i < b ensures outs[i].Ok? {
      PageResultSpec(doc.pages[i], i + 1);
    }
    PageResultSpec(doc.pages[b], b + 1);
    TraceFails(outs, 0, [], b);
  }

  /**
   * Whatever the document, the log is progress(1, N), progress(2, N), ...
   * with one constant total N, followed by exactly one final event, which is
   * finished exactly when nothing raised, and then after all N pages.
   */
  lemma EventsShape(doc: Document)
    ensures |Events(doc)| >= 1 && |Events(doc)| - 1 <= Total(doc)
    ensures forall i :: 0 <= i < |Events(doc)| - 1 ==> Events(doc)[i] == Progress(i + 1, Total(doc))
    ensures !Events(doc)[|Events(doc)| - 1].Progress?
    ensures Events(doc)[|Events(doc)| - 1].Finished? <==> Succeeds(doc)
    ensures Succeeds(doc) ==> |Events(doc)| == Total(doc) + 1
  {
    if Succeeds(doc) {
      EventsSucceed(doc);
    } else if doc.Document? {
      var b := FirstFailure(doc.pages, 0);
      EventsFail(doc, b);
    }
  }

  predicate PagesOrdered(rs: seq<Record>) {
    forall i, j :: 0 <= i < j < |rs| ==> rs[i].page <= rs[j].page
  }

  lemma OrderedAppend(here: seq<Record>, later: seq<Record>, pageNo: int)
    requires forall r :: r in here ==> r.page == pageNo
    requires forall r :: r in later ==> pageNo < r.page
    requires PagesOrdered(later)
    ensures PagesOrdered(here + later)
  {
    var all := here + later;
    forall i, j | 0 <= i < j < |all| ensures all[i].page <= all[j].page {
      if j < |here| {
        assert all[i] in here && all[j] in here;
      } else if i < |here| {
        assert all[i] in here && all[j] == later[j - |here|];
      } else {
        assert all[i] == later[i - |here|] && all[j] == later[j - |here|];
      }
    }
  }

  /** The records of pages k.. carry page numbers in k+1..N and are well formed. */
  lemma {:induction false} DocRecordsFacts(pages: seq<Page>, k: nat)
    requires k <= |pages| && PagesOk(pages, k)
    ensures forall r :: r in DocRecords(pages, k) ==> k + 1 <= r.page <= |pages| && WellFormed(r)
    decreases |pages| - k
  {
    if k < |pages| {
      PageRecordsFacts(pages[k].annots, k + 1);
      DocRecordsFacts(pages, k + 1);
    }
  }

  /** The records of pages k.. come in non-decreasing page order. */
  lemma {:induction false} DocRecordsOrdered(pages: seq<Page>, k: nat)
    requires k <= |pages| && PagesOk(pages, k)
    ensures PagesOrdered(DocRecords(pages, k))
    decreases |pages| - k
  {
    if k < |pages| {
      PageRecordsFacts(pages[k].annots, k + 1);
      DocRecordsFacts(pages, k + 1);
      DocRecordsOrdered(pages, k + 1);
      OrderedAppend(PageRecords(pages[k].annots, k + 1), DocRecords(pages, k + 1), k + 1);
    }
  }

  /** Delivered records carry page numbers in 1..N, in non-decreasing order, and are well formed. */
  lemma FinishedRecords(doc: Document)
    requires Succeeds(doc)
    ensures forall r :: r in DocRecords(doc.pages, 0) ==> 1 <= r.page <= |doc.pages| && WellFormed(r)
    ensures PagesOrdered(DocRecords(doc.pages, 0))
  {
    DocRecordsFacts(doc.pages, 0);
    DocRecordsOrdered(doc.pages, 0);
  }

  predicate NothingKept(pages: seq<Page>) {
    forall i :: 0 <= i < |pages| && pages[i].Page? ==> NoneKept(pages[i].annots)
  }

  lemma {:induction false} DocRecordsEmpty(pages: seq<Page>, k: nat)
    requires k <= |pages| && PagesOk(pages, k) && NothingKept(pages)
    ensures DocRecords(pages, k) == []
    decreases |pages| - k
  {
    if k < |pages| {
      PageRecordsEmpty(pages[k].annots, k + 1);
      DocRecordsEmpty(pages, k + 1);
    }
  }

  /** A document without a highlight that has visible text yields the empty list after all progress. */
  lemma NoHighlights(doc: Document)
    requires Succeeds(doc) && NothingKept(doc.pages)
    ensures Events(doc) == ProgressRange(0, |doc.pages|, |doc.pages|) + [Finished([])]
  {
    EventsSucceed(doc);
    DocRecordsEmpty(doc.pages, 0);
  }

  /** A document that cannot be opened: one failure carrying the reason, no progress, no records. */
  lemma OpenFailure(reason: string)
    ensures Events(OpenFailed(reason)) == [Failed(reason)]
    ensures !Succeeds(OpenFailed(reason)) && Total(OpenFailed(reason)) == 0
  {
  }

  /** A document with no pages: no progress, and the empty list. */
  lemma NoPages()
    ensures Events(Document([])) == [Finished([])]
  {
  }

  /** A highlight without a stroke colour counts as black and is filed as critical. */
  lemma MissingStrokeIsCritical(a: Annot, pageNo: int)
    requires Kept(a) && a.stroke.None?
    ensures Classifiable(a) && RecordOf(a, pageNo).category == "Critical Issues / Warnings"
  {
    ClassifyBlack();
  }

  /**
   * A highlight whose colour has more than three channels stops the run
   * with IndexError, even when its text is empty.
   */
  lemma OverlongStrokeFails(text: Str, color: seq<real>)
    requires |color| > 3
    ensures Events(Document([Page([Annot(HighlightType, text, Some(color), false, [])])])) ==
      [Progress(1, 1), Failed("tuple index out of range")]
  {
    var doc := Document([Page([Annot(HighlightType, text, Some(color), false, [])])]);
    assert !Classifiable(doc.pages[0].annots[0]);
    EventsFail(doc, 0);
  }

  /** "Remember this" as code points. */
  const RememberThis: Str := FromString("Remember this")

  lemma RememberThisIsClean()
    ensures Clean(RememberThis) == RememberThis
  {
    assert |RememberThis| == 13 && RememberThis[0] == 82 && RememberThis[12] == 115;
    assert IsPrintableAscii(RememberThis);
    CleanPlain(RememberThis);
  }

  /** The highlight of the two-page example: yellow, reading "Remember this", no popup. */
  predicate IsYellowNote(note: Annot) {
    note.typeCode == HighlightType && note.clipText == RememberThis && note.stroke == Some(Yellow) && !note.hasPopup
  }

  const YellowRecord: Record := Record(1, RememberThis, "General Notes", [])

  lemma YellowIsGeneralNotes()
    ensures Classify(Yellow) == Ok("General Notes")
  {
    ClassifyPaletteColour(1);
    TableReferences();
  }

  lemma ExampleRecord(note: Annot)
    requires IsYellowNote(note)
    ensures Kept(note) && Classifiable(note)
    ensures RecordOf(note, 1) == YellowRecord
  {
    RememberThisIsClean();
    YellowIsGeneralNotes();
  }

  lemma ExampleHighlight(note: Annot)
    requires IsYellowNote(note)
    ensures Process(note, 1) == Ok(Some(YellowRecord))
  {
    ExampleRecord(note);
    ProcessOutcome(note, 1);
  }

  /** A page with a single annotation that yields a record yields just that record. */
  lemma ScanSingle(a: Annot, pageNo: int, r: Record)
    requires Process(a, pageNo) == Ok(Some(r))
    ensures ScanPage([a], pageNo) == Ok([r])
  {
    assert [a][1..] == [];
    assert [r] + [] == [r];
  }

  /** A two-page run whose first page yields rs and whose second page is empty. */
  lemma TwoPages(first: Page, rs: seq<Record>)
    requires first.Page? && ScanPage(first.annots, 1) == Ok(rs)
    ensures Events(Document([first, Page([])])) == [Progress(1, 2), Progress(2, 2), Finished(rs)]
  {
    var outs := Outcomes([first, Page([])]);
    assert outs[0] == Ok(rs) && outs[1] == Ok([]);
    TraceStep(outs, 0, []);
    TraceStep(outs, 1, rs);
    TraceEnd(outs, rs);
    assert [] + rs == rs && rs + [] == rs;
  }

  /**
   * A two-page document whose first page holds one yellow highlight reading
   * "Remember this" without a popup and whose second page is empty:
   * progress 1/2, 2/2, then the one record on page 1, filed under
   * "General Notes" with no comment.
   */
  lemma TwoPageExample(note: Annot)
    requires IsYellowNote(note)
    ensures Events(Document([Page([note]), Page([])])) ==
      [Progress(1, 2), Progress(2, 2), Finished([Record(1, FromString("Remember this"), "General Notes", [])])]
  {
    ExampleHighlight(note);
    ScanSingle(note, 1, YellowRecord);
    TwoPages(Page([note]), [YellowRecord]);
  }
}
