/**
 * `QuestLoader`: reading quest markup through a `Stream.QuestStream` into a
 * `Document.QuestDocument`, and the structural check of a finished document.
 * Each parsing method is proved to compute the corresponding function of
 * `Grammar` on the significant lines the stream has left, and to leave the
 * stream standing before the lines that function did not consume.
 */
module Loader {
  import opened JsBuiltins
  import opened Types
  import opened Patterns
  import opened Stream
  import opened Document
  import Grammar

  /** A parse method's result together with the lines the stream has left. */
  function Outcome<T>(r: Result<T, LoadError>, rest: seq<string>): Result<Grammar.Parsed<T>, LoadError> {
    match r
    case Ok(v) => Ok(Grammar.Parsed(v, rest))
    case Err(e) => Err(e)
  }

  /** The significant lines of the markup, as a fresh stream delivers them. */
  function MarkupLines(markup: string): seq<string> {
    Significant(TrimAll(Split(markup, '\n')), 0)
  }

  /**
   * The loop of `parsePageLogics` and `parsePageChoices`: read lines while
   * they satisfy `P`, parsing each with `f` and failing at the first failure;
   * at the end of the lines stop, and push back the first other line. The
   * stream then stands at a line it will return or at the end.
   */
  method ReadRun<T>(stream: QuestStream, P: string -> bool, f: string -> Result<T, LoadError>) returns (r: Result<seq<T>, LoadError>)
    requires stream.Valid()
    modifies stream
    ensures stream.Valid()
    ensures Grammar.ParseRun(old(stream.Remaining()), P, f) == Outcome(r, stream.Remaining())
    ensures r.Ok? ==> stream.Settled()
  {
    ghost var R := stream.Remaining();
    var values: seq<T> := [];
    while true
      invariant stream.Valid()
      invariant |values| <= Grammar.Run(R, P) && stream.Remaining() == R[|values|..]
      invariant Grammar.MapResult(f, R[..|values|]) == Ok(values)
      decreases |R| - |values|
    {
      ghost var i := |values|;
      var line := stream.Next();
      assert line != "" ==> line == R[i];
      Grammar.RunStep(R, P, i);
      Grammar.ParseRunAt(R, P, f, i, values);
      if line == "" {
        break;
      }
      if !P(line) {
        stream.Previous();
        break;
      }
      Grammar.MapResultExtend(f, R, i, values);
      var v := f(line);
      if v.Err? {
        return Err(v.error);
      }
      values := values + [v.value];
    }
    r := Ok(values);
  }

  /**
   * `parsePageLogics`: read `{` lines, one logic each, until another line,
   * which is pushed back, or the end. `logics` stays absent until the first
   * logic is appended.
   */
  method ParsePageLogics(stream: QuestStream) returns (r: Result<Option<seq<Logic>>, LoadError>)
    requires stream.Valid()
    modifies stream
    ensures stream.Valid()
    ensures Grammar.PageLogics(old(stream.Remaining())) == Outcome(r, stream.Remaining())
  {
    var logics := ReadRun(stream, Grammar.IsLogicLine, Grammar.LogicLine);
    if logics.Err? {
      return Err(logics.error);
    }
    r := Ok(if logics.value == [] then None else Some(logics.value));
  }

  /**
   * `parsePageTexts`: collect lines until a `*` or `-` line, which is pushed
   * back, or the end; none is an error; else join them with spaces and split
   * the result at the line-break markers.
   */
  method ParsePageTexts(stream: QuestStream) returns (r: Result<seq<string>, LoadError>)
    requires stream.Valid()
    modifies stream
    ensures stream.Valid()
    ensures Grammar.PageTexts(old(stream.Remaining())) == Outcome(r, stream.Remaining())
  {
    ghost var R := stream.Remaining();
    ghost var k := Grammar.Run(R, Grammar.IsTextLine);
    var buf: seq<string> := [];
    while true
      invariant stream.Valid()
      invariant |buf| <= k && buf == R[..|buf|] && stream.Remaining() == R[|buf|..]
      decreases |R| - |buf|
    {
      var line := stream.Next();
      if line == "" {
        break;
      }
      if line[0] == '*' || line[0] == '-' {
        stream.Previous();
        break;
      }
      buf := buf + [line];
    }
    if |buf| == 0 {
      return Err(InvalidTexts);
    }
    r := Ok(SplitLineBreaks(Join(buf, " ")));
  }

  /**
   * `parsePageChoices`: read `*` lines, one choice each, until another line,
   * which is pushed back, or the end. No choice, or a single guarded one, is
   * an error. Afterwards the stream stands at a line it will return or at
   * the end.
   */
  method ParsePageChoices(stream: QuestStream) returns (r: Result<seq<Choice>, LoadError>)
    requires stream.Valid()
    modifies stream
    ensures stream.Valid()
    ensures Grammar.PageChoices(old(stream.Remaining())) == Outcome(r, stream.Remaining())
    ensures r.Ok? ==> stream.Settled()
  {
    var choices := ReadRun(stream, Grammar.IsChoiceLine, Grammar.ChoiceLine);
    if choices.Err? {
      return Err(choices.error);
    }
    if |choices.value| == 0 {
      return Err(NoChoices);
    }
    if |choices.value| == 1 && choices.value[0].condition.Some? {
      return Err(GuardedAutoChoice);
    }
    r := Ok(choices.value);
  }

  /**
   * `parsePage`: a header line with `->` and the page name, lower-cased and
   * not `end`, then the logic block, the texts and the choices.
   */
  method ParsePage(stream: QuestStream) returns (r: Result<(string, Page), LoadError>)
    requires stream.Valid()
    modifies stream
    ensures stream.Valid()
    ensures Grammar.ParsePage(old(stream.Remaining())) == Outcome(r, stream.Remaining())
    ensures r.Ok? ==> stream.Settled()
  {
    ghost var R := stream.Remaining();
    var header := stream.Next();
    var found := HeaderName(header);
    assert R == [] ==> header == "" && found.None?;
    if found.None? {
      return Err(InvalidHeader);
    }
    var name := Lower(found.value);
    if name == EndPage {
      return Err(ReservedPageName);
    }
    var logics := ParsePageLogics(stream);
    if logics.Err? {
      return Err(logics.error);
    }
    var texts := ParsePageTexts(stream);
    if texts.Err? {
      return Err(texts.error);
    }
    var choices := ParsePageChoices(stream);
    if choices.Err? {
      return Err(choices.error);
    }
    r := Ok((name, Page(texts.value, choices.value, logics.value)));
  }

  /**
   * `loadMarkup`: empty markup is an error; otherwise read pages until the
   * lines run out, rejecting a name read before, with the first page as
   * entry; the state is then reset to the entry with no variables.
   */
  method LoadMarkup(markup: string) returns (r: Result<QuestDocument, LoadError>)
    ensures r.Ok? ==> fresh(r.value)
    ensures Grammar.Load(markup, MarkupLines(markup)) ==
      match r
      case Ok(doc) => Ok(Grammar.Quest(doc.entry, doc.pages))
      case Err(e) => Err(e)
    ensures r.Ok? ==> r.value.currentPage == r.value.entry && r.value.vars == map[]
    ensures r.Ok? ==> r.value.entry in r.value.pages && EndPage !in r.value.pages
  {
    if markup == "" {
      return Err(EmptyMarkup);
    }
    var stream := new QuestStream(markup);
    var doc := new QuestDocument();
    Grammar.ParsePageIsReader();
    ghost var first := true;
    while !stream.Eof()
      invariant fresh(stream) && fresh(doc)
      invariant stream.Valid() && stream.lines == Split(markup, '\n')
      invariant first ==> stream.pointer == 0 && doc.pages == map[] && doc.entry == ""
      invariant !first ==> stream.Settled()
      invariant Grammar.Load(markup, MarkupLines(markup)) ==
        if first then Grammar.LoadPages(Grammar.ParsePage, stream.Remaining(), doc.pages, doc.entry)
        else Grammar.LoadRest(Grammar.ParsePage, stream.Remaining(), doc.pages, doc.entry)
      decreases |stream.Remaining()|, if first then 1 else 0
    {
      ghost var R := stream.Remaining();
      var page := ParsePage(stream);
      if page.Err? {
        return Err(page.error);
      }
      var (name, p) := page.value;
      if name in doc.pages {
        return Err(DuplicatePage(name));
      }
      doc.pages := doc.pages[name := p];
      if doc.entry == "" {
        doc.entry := name;
      }
      first := false;
    }
    doc.ResetState();
    r := Ok(doc);
    Grammar.LoadedQuestWellFormed(markup, MarkupLines(markup));
  }

  // ---------------------------------------------------------------------
  // `validate`.

  /** A choice may lead to `end` or to a page of the document. */
  predicate LinkOk(pages: map<string, Page>, link: string) {
    link == EndPage || link in pages
  }

  /** The checks `validate` makes on one page: it has texts and choices, and every link is known. */
  predicate PageSound(pages: map<string, Page>, name: string)
    requires name in pages
  {
    var page := pages[name];
    && |page.texts| > 0
    && |page.choices| > 0
    && forall i :: 0 <= i < |page.choices| ==> LinkOk(pages, page.choices[i].link)
  }

  /** Page `from` has a choice leading to `name`; links to `end` are not recorded. */
  predicate LinksTo(pages: map<string, Page>, from: string, name: string) {
    && from in pages
    && name != EndPage
    && exists i :: 0 <= i < |pages[from].choices| && pages[from].choices[i].link == name
  }

  /** A page is referenced when it is the entry or some page, itself included, links to it. */
  predicate Referenced(entry: string, pages: map<string, Page>, name: string) {
    name == entry || exists from :: from in pages && LinksTo(pages, from, name)
  }

  /** What `validate` accepts. */
  predicate ValidQuest(entry: string, pages: map<string, Page>) {
    && (forall name :: name in pages ==> PageSound(pages, name))
    && (forall name :: name in pages ==> Referenced(entry, pages, name))
  }

  /** Each error `validate` raises names a real defect; a missing reference only once every page is sound. */
  predicate Reports(entry: string, pages: map<string, Page>, e: ValidationError) {
    match e
    case NoTexts(name) => name in pages && |pages[name].texts| == 0
    case NoPageChoices(name) => name in pages && |pages[name].choices| == 0
    case UnknownLink(name, link) =>
      && name in pages && !LinkOk(pages, link)
      && exists i :: 0 <= i < |pages[name].choices| && pages[name].choices[i].link == link
    case Unreferenced(name) =>
      && name in pages && !Referenced(entry, pages, name)
      && forall other :: other in pages ==> PageSound(pages, other)
  }

  /**
   * `validate`: check every page's texts, choices and links while recording
   * the pages linked to, then check that every page was the entry or linked
   * to. The document is not changed. Pages are visited in no particular
   * order.
   */
  method Validate(doc: QuestDocument) returns (r: Option<ValidationError>)
    ensures r.None? <==> ValidQuest(doc.entry, doc.pages)
    ensures r.Some? ==> Reports(doc.entry, doc.pages, r.value)
  {
    var pages := doc.pages;
    var links: set<string> := {doc.entry};
    var todo := pages.Keys;
    while todo != {}
      invariant todo <= pages.Keys
      invariant forall name :: name in pages && name !in todo ==> PageSound(pages, name)
      invariant forall name :: name in links <==>
        name == doc.entry || exists from :: from in pages && from !in todo && LinksTo(pages, from, name)
      decreases |todo|
    {
      var name :| name in todo;
      var page := pages[name];
      if |page.texts| == 0 {
        return Some(NoTexts(name));
      }
      if |page.choices| == 0 {
        return Some(NoPageChoices(name));
      }
      ghost var before := links;
      var i := 0;
      while i < |page.choices|
        invariant 0 <= i <= |page.choices|
        invariant forall j :: 0 <= j < i ==> LinkOk(pages, page.choices[j].link)
        invariant forall link :: link in links <==>
          link in before || (link != EndPage && exists j :: 0 <= j < i && page.choices[j].link == link)
      {
        var link := page.choices[i].link;
        if link != EndPage {
          if link !in pages {
            return Some(UnknownLink(name, link));
          }
          links := links + {link};
        }
        i := i + 1;
      }
      todo := todo - {name};
    }
    todo := pages.Keys;
    while todo != {}
      invariant todo <= pages.Keys
      invariant forall name :: name in pages && name !in todo ==> Referenced(doc.entry, pages, name)
      decreases |todo|
    {
      var name :| name in todo;
      if name !in links {
        return Some(Unreferenced(name));
      }
      todo := todo - {name};
    }
    r := None;
  }
}
