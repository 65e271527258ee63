/** `Parser.parse_page_soup`, which turns the film fragments of one listing page into records,
    and `Parser.parse_pages`, which reads every saved page in turn, takes the listing title and
    description from the first one and appends every page's records to `all_films`. Directory
    listing, file reading and HTML parsing are not modelled: each saved page arrives as a
    `PageFile`, already split into what the HTML library would find in it. */
module Aggregation {
  import opened Wrappers
  import opened Film
  import opened Sequences

  /** parse_page_soup: the loop that builds one record per fragment and appends it, so the
      records are the fragments' records, one each and in fragment order. */
  method ParsePageSoup(fragments: seq<FilmFragment>) returns (films: seq<FilmRecord>)
    ensures films == Map(ExtractFilm, fragments)
  {
    films := [];
    var i := 0;
    while i < |fragments|
      invariant 0 <= i <= |fragments|
      invariant films == Map(ExtractFilm, fragments[..i])
    {
      MapStep(ExtractFilm, fragments, i);
      films := films + [ExtractFilm(fragments[i])];
      i := i + 1;
    }
    assert fragments[..i] == fragments;
  }

  /** The listing title (`h1`) and description (`p`) texts of a page, `None` when the element
      is missing; a page without the content section has neither. */
  datatype ListingInfo = ListingInfo(title: Option<string>, description: Option<string>)

  /** A saved page: one that cannot be opened or read raises inside the loop's `try`, any
      other is a document with its listing info and its film fragments. */
  datatype PageFile =
    | Unreadable
    | PageDocument(info: ListingInfo, fragments: seq<FilmFragment>)

  /** What one page adds to `all_films`: nothing when it raises, all its records otherwise. */
  function Contribution(file: PageFile): seq<FilmRecord> {
    match file
    case Unreadable => []
    case PageDocument(_, fragments) => Map(ExtractFilm, fragments)
  }

  /** The records of a sequence of pages, page after page. */
  function Collected(files: seq<PageFile>): seq<FilmRecord> {
    Flatten(Map(Contribution, files))
  }

  /** The records of two runs of pages are those of the first followed by those of the
      second, so pages are never interleaved. */
  lemma CollectedConcat(a: seq<PageFile>, b: seq<PageFile>)
    ensures Collected(a + b) == Collected(a) + Collected(b)
  {
    MapConcat(Contribution, a, b);
    FlattenConcat(Map(Contribution, a), Map(Contribution, b));
  }

  /** Reading one more page appends its contribution. */
  lemma CollectedSnoc(files: seq<PageFile>, file: PageFile)
    ensures Collected(files + [file]) == Collected(files) + Contribution(file)
  {
    CollectedConcat(files, [file]);
    FlattenSingle(Map(Contribution, [file]));
    assert Map(Contribution, [file]) == [Contribution(file)];
  }

  /** One loop step of parse_pages adds the contribution of the page at index `i`. */
  lemma CollectedStep(files: seq<PageFile>, i: nat)
    requires i < |files|
    ensures Collected(files[..i + 1]) == Collected(files[..i]) + Contribution(files[i])
  {
    assert files[..i + 1] == files[..i] + [files[i]];
    CollectedSnoc(files[..i], files[i]);
  }

  /** A page that raises contributes nothing, whatever comes before or after it. */
  lemma CollectedSkipsUnreadable(a: seq<PageFile>, b: seq<PageFile>)
    ensures Collected(a + [Unreadable] + b) == Collected(a + b)
  {
    assert Collected(a + [Unreadable]) == Collected(a) by {
      CollectedSnoc(a, Unreadable);
      assert Collected(a) + [] == Collected(a);
    }
    CollectedConcat(a + [Unreadable], b);
    CollectedConcat(a, b);
  }

  /** A single readable page contributes exactly its own records, one per fragment and in
      fragment order. */
  lemma CollectedSingle(info: ListingInfo, fragments: seq<FilmFragment>)
    ensures Collected([PageDocument(info, fragments)]) == Map(ExtractFilm, fragments)
  {
    var file := PageDocument(info, fragments);
    assert Map(Contribution, [file]) == [Contribution(file)];
    FlattenSingle(Contribution(file));
  }

  /** get_parser_info: the title is replaced when the page has one; the description only
      when it has both, because a missing title raises before the description is read. */
  function ApplyInfo(info: ListingInfo, title: string, desc: string): (r: (string, string))
    ensures info.title.None? ==> r == (title, desc)
    ensures info.title.Some? ==> r.0 == info.title.value
    ensures r.1 == (if info.title.Some? && info.description.Some? then info.description.value else desc)
  {
    match info.title
    case None => (title, desc)
    case Some(t) =>
      match info.description
      case None => (t, desc)
      case Some(d) => (t, d)
  }

  /** The title and description after a run of pages: only the page at index 0 is asked,
      and only when it can be read. */
  function Metadata(files: seq<PageFile>, title: string, desc: string): (string, string) {
    if |files| > 0 && files[0].PageDocument? then ApplyInfo(files[0].info, title, desc)
    else (title, desc)
  }

  /** Pages after the first never change the title or description. */
  lemma MetadataFirstOnly(files: seq<PageFile>, more: seq<PageFile>, title: string, desc: string)
    requires |files| > 0
    ensures Metadata(files + more, title, desc) == Metadata(files, title, desc)
  {
    assert (files + more)[0] == files[0];
  }

  /** One loop step of parse_pages changes the metadata only at index 0. */
  lemma MetadataStep(files: seq<PageFile>, i: nat, title: string, desc: string)
    requires i < |files|
    ensures Metadata(files[..i + 1], title, desc)
      == if i == 0 && files[0].PageDocument? then ApplyInfo(files[0].info, title, desc)
         else Metadata(files[..i], title, desc)
  {
    if i > 0 {
      assert files[..i + 1] == files[..i] + [files[i]];
      MetadataFirstOnly(files[..i], [files[i]], title, desc);
    }
  }

  /** When the first page cannot be read the defaults stay, even if a later page has a
      title. */
  lemma MetadataUnreadableFirst(more: seq<PageFile>, title: string, desc: string)
    ensures Metadata([Unreadable] + more, title, desc) == (title, desc)
  {
  }

  const DefaultTitle: string := "Some title"
  const DefaultDesc: string := "Some desc"

  /** The parser's collected state: the records of every page read so far and the listing
      title and description. */
  class Parser {
    var allFilms: seq<FilmRecord>
    var parserTitle: string
    var parserDesc: string

    constructor()
      ensures allFilms == [] && parserTitle == DefaultTitle && parserDesc == DefaultDesc
    {
      allFilms := [];
      parserTitle := DefaultTitle;
      parserDesc := DefaultDesc;
    }

    /** get_parser_info: the title is assigned first, so it can change while the
        description keeps its old value. */
    method GetParserInfo(info: ListingInfo)
      modifies this
      ensures (parserTitle, parserDesc) == ApplyInfo(info, old(parserTitle), old(parserDesc))
      ensures allFilms == old(allFilms)
    {
      if info.title.Some? {
        parserTitle := info.title.value;
        if info.description.Some? {
          parserDesc := info.description.value;
        }
      }
    }

    /** The body of the `try` in parse_pages for the page at index `i`: a page that raises
        changes nothing; a readable one first sets the listing info when it is the page at
        index 0, then has all its records appended. */
    method ReadPage(i: nat, file: PageFile)
      modifies this
      ensures allFilms == old(allFilms) + Contribution(file)
      ensures (parserTitle, parserDesc)
        == if i == 0 && file.PageDocument? then ApplyInfo(file.info, old(parserTitle), old(parserDesc))
           else (old(parserTitle), old(parserDesc))
    {
      if file.PageDocument? {
        if i == 0 {
          GetParserInfo(file.info);
        }
        var films := ParsePageSoup(file.fragments);
        allFilms := allFilms + films;
      } else {
        assert allFilms + Contribution(file) == allFilms;
      }
    }

    /** parse_pages: every page in listing order; a page that raises is skipped and the
        loop goes on; the page at index 0 also sets the listing info. */
    method ParsePages(files: seq<PageFile>)
      modifies this
      ensures allFilms == old(allFilms) + Collected(files)
      ensures (parserTitle, parserDesc) == Metadata(files, old(parserTitle), old(parserDesc))
    {
      var i := 0;
      while i < |files|
        invariant 0 <= i <= |files|
        invariant allFilms == old(allFilms) + Collected(files[..i])
        invariant (parserTitle, parserDesc) == Metadata(files[..i], old(parserTitle), old(parserDesc))
      {
        CollectedStep(files, i);
        AppendAssoc(old(allFilms), Collected(files[..i]), Contribution(files[i]));
        MetadataStep(files, i, old(parserTitle), old(parserDesc));
        ReadPage(i, files[i]);
        i := i + 1;
      }
      assert files[..i] == files;
    }
  }
}
