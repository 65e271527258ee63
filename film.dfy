/** The per-film field extractors of `Parser.parse_page_soup` (main.py) and the record they
    build. Locating an element in the film's document fragment is done by the HTML library and
    is not modelled: each extractor receives the text (or attribute) of the element it asks for,
    `None` when the element is missing, and applies the source's fixed chain of string
    operations to it. Every extractor is total: any failure of the chain, a missing element or a
    failed `int()`, ends in the extractor's fixed sentinel. */
module Film {
  import opened Wrappers
  import opened PyStr
  import opened PyInt
  import opened Sequences

  const SiteRoot: string := "https://www.kinopoisk.ru/"

  const NoLink: string := "no link"
  const NoEngTitle: string := "no eng title"
  const NoCountry: string := "no country"
  const NoGenre: string := "no genre"
  const NoDirector: string := "no director"
  const NoMainRoles: string := "no main roles"

  const Nbsp: string := "\U{A0}"
  const Bullet: string := "•"
  const MinutesSuffix: string := "мин."
  const DirectorWord: string := "Режиссёр"
  const DirectorMarker: string := "Режиссёр: "
  const CastMarker: string := "В ролях: "

  /** What the HTML library finds in one film's fragment: one optional text per element the
      extractors look up. `truncatedInfo` is the truncated span of the additional-info block
      (read by country and director), `firstInfoSpan` is the first span of that block (read by
      genre), and `castText` the span inside the element that follows the block. */
  datatype FilmFragment = FilmFragment(
    linkHref: Option<string>,
    titleText: Option<string>,
    secondaryTitle: Option<string>,
    secondaryText: Option<string>,
    truncatedInfo: Option<string>,
    firstInfoSpan: Option<string>,
    castText: Option<string>,
    ratingText: Option<string>,
    votesText: Option<string>)

  /** The rating is a string on success and the integer 0 on failure. */
  datatype Rating = RatingText(text: string) | RatingZero

  /** One film, with the fields in the order the source inserts them into its dict. */
  datatype FilmRecord = FilmRecord(
    link: string,
    title: string,
    titleEn: string,
    releaseDate: int,
    duration: int,
    country: string,
    genre: string,
    director: string,
    mainRoles: string,
    rating: Rating,
    votes: int)

  /** The `except: return 0` around an `int(...)` conversion. */
  function OrZero(n: Option<int>): int {
    match n
    case None => 0
    case Some(v) => v
  }

  /** get_film_link: the site root followed by the stripped href. */
  function FilmLink(href: Option<string>): (r: string)
    ensures href.None? ==> r == NoLink
    ensures href.Some? ==> SiteRoot <= r && r[|SiteRoot|..] == Strip(href.value, Whitespace) && r != NoLink
  {
    match href
    case None => NoLink
    case Some(h) =>
      var r := SiteRoot + Strip(h, Whitespace);
      assert r[0] != NoLink[0];
      r
  }

  /** get_film_title: the stripped text, which keeps every character of the text that is not
      whitespace and neither starts nor ends with whitespace; its sentinel is the link's
      "no link". */
  function FilmTitle(text: Option<string>): (r: string)
    ensures text.None? ==> r == NoLink
    ensures text.Some? ==>
      && |r| <= |text.value|
      && (|r| > 0 ==> r[0] !in Whitespace && r[|r| - 1] !in Whitespace)
      && (forall c :: c in text.value && c !in Whitespace ==> c in r)
  {
    match text
    case None => NoLink
    case Some(t) =>
      StripKeeps(t, Whitespace);
      Strip(t, Whitespace)
  }

  /** A missing title element gives the same value as a missing link. */
  lemma TitleSentinelIsLinkSentinel()
    ensures FilmTitle(None) == FilmLink(None) == "no link"
  {
  }

  lemma SentinelIsPrintable()
    ensures forall c :: c in NoEngTitle ==> IsPrintable(c)
  {
  }

  /** get_film_title_en: the printable characters of the stripped text. */
  function FilmTitleEn(text: Option<string>): (r: string)
    ensures forall c :: c in r ==> IsPrintable(c)
    ensures text.None? ==> r == NoEngTitle
    ensures text.Some? ==> forall c :: c in Strip(text.value, Whitespace) && IsPrintable(c) ==> c in r
    ensures text.Some? && (forall c :: c in text.value ==> IsPrintable(c)) ==> r == Strip(text.value, Whitespace)
  {
    match text
    case None =>
      SentinelIsPrintable();
      NoEngTitle
    case Some(t) =>
      var s := Strip(t, Whitespace);
      StripKeeps(t, Whitespace);
      FilterPrintableKeeps(s);
      assert (forall c :: c in t ==> IsPrintable(c)) ==> forall k :: 0 <= k < |s| ==> IsPrintable(s[k]);
      FilterPrintable(s)
  }

  /** Filtering the English title again leaves it unchanged. */
  lemma FilmTitleEnIdempotent(text: Option<string>)
    ensures FilterPrintable(FilmTitleEn(text)) == FilmTitleEn(text)
  {
    var r := FilmTitleEn(text);
    FilterPrintableKeeps(r);
    assert forall k :: 0 <= k < |r| ==> r[k] in r;
  }

  /** The secondary text as release date and duration see it: `strip(' ,')`, then no-break
      spaces turned into spaces. */
  function NormalizedSecondary(t: string): string {
    Replace(Strip(t, " ,"), Nbsp, " ")
  }

  /** The comma-separated segments of the secondary text, `split(', ')`. */
  function SecondarySegments(t: string): (r: seq<string>)
    ensures |r| >= 1
    ensures |r| == 1 <==> !Contains(NormalizedSecondary(t), ", ")
  {
    SplitOnePieceIff(NormalizedSecondary(t), ", ");
    Split(NormalizedSecondary(t), ", ")
  }

  /** get_film_release_date: the first segment as an integer. */
  function FilmReleaseDate(text: Option<string>): (r: int)
    ensures text.None? ==> r == 0
    ensures r != 0 ==> text.Some? && ParseInt(SecondarySegments(text.value)[0]) == Some(r)
    ensures text.Some? && ParseInt(SecondarySegments(text.value)[0]).None? ==> r == 0
    ensures text.Some? && ParseInt(SecondarySegments(text.value)[0]).Some? ==>
      r == ParseInt(SecondarySegments(text.value)[0]).value
  {
    match text
    case None => 0
    case Some(t) => OrZero(ParseInt(SecondarySegments(t)[0]))
  }

  /** The second segment with the minutes suffix removed and stripped. */
  function MinutesText(segment: string): string {
    Strip(Replace(segment, MinutesSuffix, ""), Whitespace)
  }

  /** get_film_duration: the second segment, without its minutes suffix, as an integer;
      a text with no second segment (the IndexError of `[1]`) gives 0. */
  function FilmDuration(text: Option<string>): (r: int)
    ensures text.None? ==> r == 0
    ensures text.Some? && !Contains(NormalizedSecondary(text.value), ", ") ==> r == 0
    ensures r != 0 ==>
      && text.Some? && |SecondarySegments(text.value)| >= 2
      && ParseInt(MinutesText(SecondarySegments(text.value)[1])) == Some(r)
    ensures text.Some? && |SecondarySegments(text.value)| >= 2 ==>
      (ParseInt(MinutesText(SecondarySegments(text.value)[1])).None? ==> r == 0)
    ensures text.Some? && |SecondarySegments(text.value)| >= 2 ==>
      (ParseInt(MinutesText(SecondarySegments(text.value)[1])).Some? ==>
         r == ParseInt(MinutesText(SecondarySegments(text.value)[1])).value)
  {
    match text
    case None => 0
    case Some(t) =>
      var segments := SecondarySegments(t);
      if |segments| < 2 then 0 else OrZero(ParseInt(MinutesText(segments[1])))
  }

  /** get_film_country: the first `' '`-separated token of the stripped text. */
  function FilmCountry(text: Option<string>): (r: string)
    ensures text.None? ==> r == NoCountry
    ensures text.Some? ==> ' ' !in r
  {
    match text
    case None => NoCountry
    case Some(t) =>
      var r := SplitFirst(Strip(t, Whitespace), " ");
      ContainsChar(r, ' ');
      r
  }

  /** The country is the stripped text up to its first space, or all of it. */
  lemma FilmCountryFirstToken(t: string)
    ensures var s, r := Strip(t, Whitespace), FilmCountry(Some(t));
      && r <= s
      && (' ' in s ==> |r| < |s| && s[|r|] == ' ')
      && (' ' !in s ==> r == s)
  {
    SplitFirstChar(Strip(t, Whitespace), ' ');
  }

  /** The additional-info text as genre sees it: no-break spaces turned into spaces and
      bullets removed. */
  function GenreSource(t: string): string {
    Replace(Replace(t, Nbsp, " "), Bullet, "")
  }

  /** get_film_genre: the last `' '`-token of the stripped text before the first "Режиссёр".
      It holds no space, no bullet and no no-break space. */
  function FilmGenre(text: Option<string>): (r: string)
    ensures text.None? ==> r == NoGenre
    ensures text.Some? ==> ' ' !in r && Bullet[0] !in r && Nbsp[0] !in r
  {
    match text
    case None => NoGenre
    case Some(t) =>
      var spaced := Replace(t, Nbsp, " ");
      var source := GenreSource(t);
      var head := SplitFirst(source, DirectorWord);
      var s := Strip(head, Whitespace);
      var r := SplitLast(s, " ");
      SplitLastIsSuffix(s, " ");
      ReplaceCharKeeps(t, Nbsp[0], " ");
      ReplaceChars(spaced, Bullet, "");
      ReplaceCharKeeps(spaced, Bullet[0], "");
      StripKeeps(head, Whitespace);
      ContainsChar(r, ' ');
      assert forall c :: c in r ==> c in s;
      assert forall c :: c in head ==> c in source;
      r
  }

  /** The genre is the last `' '`-token of the stripped text before the first "Режиссёр"
      of the normalised text: a suffix of it that follows a space, or all of it when it has
      no space. */
  lemma FilmGenreLastToken(t: string)
    ensures var head := SplitFirst(GenreSource(t), DirectorWord);
      var s, r := Strip(head, Whitespace), FilmGenre(Some(t));
      && !Contains(head, DirectorWord)
      && EndsWith(s, r)
      && (' ' in s ==> EndsWith(s, " " + r))
      && (' ' !in s ==> r == s)
  {
    var s := Strip(SplitFirst(GenreSource(t), DirectorWord), Whitespace);
    SplitLastIsSuffix(s, " ");
    ContainsChar(s, ' ');
  }

  /** get_film_director: the stripped text after the last "Режиссёр: ", or all of it. */
  function FilmDirector(text: Option<string>): (r: string)
    ensures text.None? ==> r == NoDirector
    ensures text.Some? ==>
      var s := Strip(text.value, Whitespace);
      && EndsWith(s, r) && !Contains(r, DirectorMarker)
      && (Contains(s, DirectorMarker) ==> EndsWith(s, DirectorMarker + r))
      && (!Contains(s, DirectorMarker) ==> r == s)
  {
    match text
    case None => NoDirector
    case Some(t) =>
      var s := Strip(t, Whitespace);
      SplitLastIsSuffix(s, DirectorMarker);
      SplitLast(s, DirectorMarker)
  }

  /** get_film_main_roles: the pieces after the first "В ролях: " joined together. */
  function FilmMainRoles(text: Option<string>): (r: string)
    ensures text.None? ==> r == NoMainRoles
  {
    match text
    case None => NoMainRoles
    case Some(t) => Join(Split(Strip(t, Whitespace), CastMarker)[1..], "")
  }

  /** The main roles are the text after the first "В ролях: " with every further marker
      removed, and the empty string, not the sentinel, when the marker is absent. */
  lemma FilmMainRolesAfterMarker(t: string)
    ensures var s, r := Strip(t, Whitespace), FilmMainRoles(Some(t));
      && (Find(s, CastMarker).None? ==> r == "")
      && (Find(s, CastMarker).Some? ==> r == Replace(s[Find(s, CastMarker).value + |CastMarker|..], CastMarker, ""))
  {
    JoinAfterFirst(Strip(t, Whitespace), CastMarker);
  }

  /** The rating's decimal point turned into a comma, `replace('.', ',')`: the same text, with
      each '.' and nothing else replaced by ','. */
  function DotsToCommas(t: string): (r: string)
    ensures |r| == |t| && '.' !in r
    ensures forall k :: 0 <= k < |t| ==> r[k] == if t[k] == '.' then ',' else t[k]
  {
    ReplaceCharPointwise(t, '.', ',');
    ReplaceCharKeeps(t, '.', ",");
    Replace(t, ".", ",")
  }

  /** get_film_rating: the stripped text with its decimal point turned into a comma; the failure
      value is the integer 0 and not a string. */
  function FilmRating(text: Option<string>): (r: Rating)
    ensures text.None? <==> r == RatingZero
    ensures text.Some? ==> r.text == DotsToCommas(Strip(text.value, Whitespace))
  {
    match text
    case None => RatingZero
    case Some(t) => RatingText(DotsToCommas(Strip(t, Whitespace)))
  }

  /** The vote count text as `int()` sees it: stripped, with every space removed. */
  function VotesDigits(t: string): string {
    Replace(Strip(t, Whitespace), " ", "")
  }

  /** get_film_votes: the stripped text without its spaces, as an integer. */
  function FilmVotes(text: Option<string>): (r: int)
    ensures text.None? ==> r == 0
    ensures r != 0 ==> text.Some? && ParseInt(VotesDigits(text.value)) == Some(r)
    ensures text.Some? && ParseInt(VotesDigits(text.value)).None? ==> r == 0
    ensures text.Some? && ParseInt(VotesDigits(text.value)).Some? ==> r == ParseInt(VotesDigits(text.value)).value
  {
    match text
    case None => 0
    case Some(t) => OrZero(ParseInt(VotesDigits(t)))
  }

  /** "<year>, <minutes>\xa0мин." has no space or comma at either end, and its no-break space
      becomes a space. */
  lemma NormalizedYearMinutes(year: string, minutes: string)
    requires |year| > 0 && AllDigits(year) && |minutes| > 0 && AllDigits(minutes)
    ensures NormalizedSecondary(year + ", " + minutes + Nbsp + MinutesSuffix)
      == year + ", " + minutes + " " + MinutesSuffix
  {
    var t := year + ", " + minutes + Nbsp + MinutesSuffix;
    assert IsDigit(year[0]);
    assert t[0] == year[0] && t[|t| - 1] == '.';
    StripUnchanged(t, " ,");
    var head := year + ", " + minutes;
    NotInDigits(year, Nbsp[0]);
    NotInDigits(minutes, Nbsp[0]);
    assert Nbsp[0] !in head by {
      assert forall c :: c in head ==> c in year || c in ", " || c in minutes;
    }
    assert Nbsp[0] !in MinutesSuffix;
    ReplaceSingle(head, Nbsp, MinutesSuffix, " ");
  }

  /** "<year>, <minutes>\xa0мин." splits into the year and the minutes followed by a space
      and the unit. */
  lemma YearAndMinutesSegments(year: string, minutes: string)
    requires |year| > 0 && AllDigits(year) && |minutes| > 0 && AllDigits(minutes)
    ensures SecondarySegments(year + ", " + minutes + Nbsp + MinutesSuffix)
      == [year, minutes + " " + MinutesSuffix]
  {
    var t := year + ", " + minutes + Nbsp + MinutesSuffix;
    var rest := minutes + " " + MinutesSuffix;
    var normalized := year + ", " + rest;
    assert NormalizedSecondary(t) == normalized by {
      NormalizedYearMinutes(year, minutes);
      AppendAssoc(year + ", ", minutes + " ", MinutesSuffix);
      AppendAssoc(year + ", ", minutes, " ");
    }
    assert Split(normalized, ", ") == [year, rest] by {
      NotInDigits(year, ',');
      NoCommaInMinutes(minutes);
      SplitSingle(year, ", ", rest);
    }
  }

  /** The segment "<minutes> мин." holds no comma. */
  lemma NoCommaInMinutes(minutes: string)
    requires AllDigits(minutes)
    ensures ',' !in minutes + " " + MinutesSuffix
  {
    NotInDigits(minutes, ',');
    assert ',' !in " " + MinutesSuffix;
    assert forall c :: c in minutes + " " + MinutesSuffix ==> c in minutes || c in " " + MinutesSuffix;
  }

  /** The segment "<minutes> мин." loses its unit and the space before it. */
  lemma MinutesOfSegment(minutes: string)
    requires |minutes| > 0 && AllDigits(minutes)
    ensures MinutesText(minutes + " " + MinutesSuffix) == minutes
  {
    var spaced := minutes + " ";
    NotInDigits(minutes, MinutesSuffix[0]);
    assert MinutesSuffix[0] !in spaced;
    assert Replace(minutes + " " + MinutesSuffix, MinutesSuffix, "") == spaced by {
      assert minutes + " " + MinutesSuffix == spaced + MinutesSuffix + "";
      ReplaceSingle(spaced, MinutesSuffix, "", "");
      assert spaced + "" + "" == spaced;
    }
    assert Strip(spaced, Whitespace) == minutes by {
      assert IsDigit(minutes[0]) && IsDigit(minutes[|minutes| - 1]);
      NotWhitespace(minutes[0]);
      NotWhitespace(minutes[|minutes| - 1]);
      assert ' ' in Whitespace;
      assert spaced == minutes + [' '];
      StripTrailing(minutes, ' ', Whitespace);
    }
  }

  /** A secondary text "<year>, <minutes>\xa0мин." gives the year as release date and the
      minutes as duration. */
  lemma YearAndMinutes(year: string, minutes: string)
    requires |year| > 0 && AllDigits(year) && |minutes| > 0 && AllDigits(minutes)
    ensures var t := year + ", " + minutes + Nbsp + MinutesSuffix;
      && FilmReleaseDate(Some(t)) == DigitsValue(year)
      && FilmDuration(Some(t)) == DigitsValue(minutes)
  {
    YearAndMinutesSegments(year, minutes);
    ParseDigitRun(year);
    MinutesOfSegment(minutes);
    ParseDigitRun(minutes);
  }

  /** A secondary text holding only a year gives that year as release date and, having no
      second segment, the duration 0. */
  lemma YearOnly(year: string)
    requires |year| > 0 && AllDigits(year)
    ensures FilmReleaseDate(Some(year)) == DigitsValue(year)
    ensures FilmDuration(Some(year)) == 0
  {
    YearSegments(year);
    ParseDigitRun(year);
  }

  /** A year alone is a single segment. */
  lemma YearSegments(year: string)
    requires |year| > 0 && AllDigits(year)
    ensures SecondarySegments(year) == [year]
  {
    assert Strip(year, " ,") == year by {
      assert IsDigit(year[0]) && IsDigit(year[|year| - 1]);
      StripUnchanged(year, " ,");
    }
    assert Replace(year, Nbsp, " ") == year by {
      NotInDigits(year, Nbsp[0]);
      ReplaceAbsent(year, Nbsp, " ");
    }
    NotInDigits(year, ',');
    SplitAbsent(year, ", ");
  }

  /** A vote count written in two groups separated by a space gives the number the digits
      of both groups spell. */
  lemma VotesTwoGroups(high: string, low: string)
    requires |high| > 0 && AllDigits(high) && |low| > 0 && AllDigits(low)
    ensures FilmVotes(Some(high + " " + low)) == DigitsValue(high + low)
  {
    GroupsUnstripped(high, low);
    GroupsJoined(high, low);
    AllDigitsConcat(high, low);
    ParseDigitRun(high + low);
  }

  /** Two digit groups separated by a space have no whitespace at either end. */
  lemma GroupsUnstripped(high: string, low: string)
    requires |high| > 0 && AllDigits(high) && |low| > 0 && AllDigits(low)
    ensures Strip(high + " " + low, Whitespace) == high + " " + low
  {
    var t := high + " " + low;
    assert IsDigit(high[0]) && IsDigit(low[|low| - 1]);
    NotWhitespace(high[0]);
    NotWhitespace(low[|low| - 1]);
    assert t[0] == high[0] && t[|t| - 1] == low[|low| - 1];
    StripUnchanged(t, Whitespace);
  }

  /** Removing the one space between two digit groups joins them. */
  lemma GroupsJoined(high: string, low: string)
    requires AllDigits(high) && AllDigits(low)
    ensures Replace(high + " " + low, " ", "") == high + low
  {
    NotInDigits(high, ' ');
    NotInDigits(low, ' ');
    ReplaceSingle(high, " ", low, "");
    assert high + [] + low == high + low;
  }

  /** The digit runs of the examples below, read as numbers. */
  lemma ExampleDigits()
    ensures AllDigits("2001") && DigitsValue("2001") == 2001
    ensures AllDigits("142") && DigitsValue("142") == 142
    ensures AllDigits("12345") && DigitsValue("12345") == 12345
  {
    assert "2001"[..3] == "200" && "200"[..2] == "20" && "20"[..1] == "2";
    assert "142"[..2] == "14" && "14"[..1] == "1";
    assert "12345"[..4] == "1234" && "1234"[..3] == "123";
    assert "123"[..2] == "12" && "12"[..1] == "1";
  }

  /** "2001, 142\xa0мин." gives the release date 2001 and the duration 142. The concrete
      texts of this and the next examples are parameters pinned by `requires`, because a
      string literal in a lemma's contract makes the verifier unfold every function applied
      to it, which does not finish. */
  lemma SecondaryTextExample(year: string, minutes: string)
    requires year == "2001" && minutes == "142"
    ensures FilmReleaseDate(Some(year + ", " + minutes + Nbsp + MinutesSuffix)) == 2001
    ensures FilmDuration(Some(year + ", " + minutes + Nbsp + MinutesSuffix)) == 142
  {
    ExampleDigits();
    YearAndMinutes(year, minutes);
  }

  /** "12 345" gives 12345 votes. */
  lemma VotesExample(high: string, low: string)
    requires high == "12" && low == "345"
    ensures FilmVotes(Some(high + " " + low)) == 12345
  {
    ExampleDigits();
    assert AllDigits(high) && AllDigits(low);
    assert high + low == "12345";
    VotesTwoGroups(high, low);
  }

  /** A vote text holding a character that is neither a digit, a sign nor whitespace gives 0. */
  lemma VotesNonNumeric(t: string, c: char)
    requires c in t && !IsDigit(c) && c !in Whitespace && c != '+' && c != '-'
    ensures FilmVotes(Some(t)) == 0
  {
    var s := Strip(t, Whitespace);
    StripKeeps(t, Whitespace);
    assert ' ' in Whitespace;
    ReplaceCharKeeps(s, ' ', "");
    IntWhitespaceIsWhitespace();
    ParseIntRejects(VotesDigits(t), c);
  }

  /** A decimal rating such as "8.5" comes out as "8,5". */
  lemma RatingExample(t: string)
    requires t == "8.5"
    ensures FilmRating(Some(t)) == RatingText("8,5")
  {
    NotWhitespace('8');
    NotWhitespace('5');
    assert Strip(t, Whitespace) == t;
    assert t == "8" + "." + "5";
    ReplaceSingle("8", ".", "5", ",");
    assert "8" + "," + "5" == "8,5";
  }

  /** The decimal text of an integer, as secondary text, gives that integer as release date. */
  lemma ReleaseDateOfDecimal(n: int)
    ensures FilmReleaseDate(Some(Decimal(n))) == n
  {
    var d := Decimal(n);
    DecimalChars(n);
    assert d[0] in d;
    assert Strip(d, " ,") == d by {
      StripUnchanged(d, " ,");
    }
    assert Replace(d, Nbsp, " ") == d by {
      ReplaceAbsent(d, Nbsp, " ");
    }
    assert Split(d, ", ") == [d] by {
      SplitAbsent(d, ", ");
    }
    ParseDecimal(n);
  }

  /** The decimal text of an integer, as vote text, gives that integer as vote count. */
  lemma VotesOfDecimal(n: int)
    ensures FilmVotes(Some(Decimal(n))) == n
  {
    var d := Decimal(n);
    DecimalChars(n);
    DecimalUnstripped(n);
    assert Replace(d, " ", "") == d by {
      ReplaceAbsent(d, " ", "");
    }
    ParseDecimal(n);
  }

  /** The secondary text written from a year and a number of minutes gives them back as
      release date and duration. */
  lemma YearAndMinutesRoundTrip(year: nat, minutes: nat)
    ensures var t := Digits(year) + ", " + Digits(minutes) + Nbsp + MinutesSuffix;
      && FilmReleaseDate(Some(t)) == year
      && FilmDuration(Some(t)) == minutes
  {
    DigitsRoundTrip(year);
    DigitsRoundTrip(minutes);
    YearAndMinutes(Digits(year), Digits(minutes));
  }

  /** An information separator U+001C to U+001F before a year is not removed by `strip(' ,')`
      and makes `int()` raise, so the release date is 0; before a vote count the same
      character is removed by `strip()` and the count is read. */
  lemma SeparatorBeforeDigits(sep: char, d: string)
    requires '\U{1C}' <= sep <= '\U{1F}' && |d| > 0 && AllDigits(d)
    ensures FilmReleaseDate(Some([sep] + d)) == 0
    ensures FilmVotes(Some([sep] + d)) == DigitsValue(d)
  {
    SeparatorSegments(sep, d);
    ParseIntSeparator(sep, d);
    SeparatorVotesDigits(sep, d);
    ParseDigitRun(d);
  }

  /** A separator followed by a digit run is a single secondary segment. */
  lemma SeparatorSegments(sep: char, d: string)
    requires '\U{1C}' <= sep <= '\U{1F}' && |d| > 0 && AllDigits(d)
    ensures SecondarySegments([sep] + d) == [[sep] + d]
  {
    var t := [sep] + d;
    assert IsDigit(d[|d| - 1]) && t[|t| - 1] == d[|d| - 1];
    assert Strip(t, " ,") == t by {
      StripUnchanged(t, " ,");
    }
    NotInDigits(d, Nbsp[0]);
    NotInDigits(d, ',');
    assert Nbsp[0] !in t && ',' !in t by {
      assert forall c :: c in t ==> c == sep || c in d;
    }
    assert Replace(t, Nbsp, " ") == t by {
      ReplaceAbsent(t, Nbsp, " ");
    }
    SplitAbsent(t, ", ");
  }

  /** `strip()` removes a separator in front of a digit run, which has no space to remove. */
  lemma SeparatorVotesDigits(sep: char, d: string)
    requires '\U{1C}' <= sep <= '\U{1F}' && |d| > 0 && AllDigits(d)
    ensures VotesDigits([sep] + d) == d
  {
    assert IsDigit(d[0]) && IsDigit(d[|d| - 1]);
    SeparatorIsWhitespace(sep);
    NotWhitespace(d[0]);
    NotWhitespace(d[|d| - 1]);
    assert Strip([sep] + d, Whitespace) == d by {
      StripLeading(sep, d, Whitespace);
    }
    NotInDigits(d, ' ');
    ReplaceAbsent(d, " ", "");
  }

  /** An information separator at the end of the minutes is not removed by `strip(' ,')`, but
      the `strip()` of the second segment removes it before `int()`: both the year and the
      minutes are read. */
  lemma SeparatorAfterMinutes(sep: char, year: string, minutes: string)
    requires '\U{1C}' <= sep <= '\U{1F}'
    requires |year| > 0 && AllDigits(year) && |minutes| > 0 && AllDigits(minutes)
    ensures FilmReleaseDate(Some(year + ", " + (minutes + [sep]))) == DigitsValue(year)
    ensures FilmDuration(Some(year + ", " + (minutes + [sep]))) == DigitsValue(minutes)
  {
    SeparatorMinutesSegments(sep, year, minutes);
    ParseDigitRun(year);
    SeparatorMinutesText(sep, minutes);
    ParseDigitRun(minutes);
  }

  /** A year, `", "` and minutes ending in a separator are two secondary segments. */
  lemma SeparatorMinutesSegments(sep: char, year: string, minutes: string)
    requires '\U{1C}' <= sep <= '\U{1F}'
    requires |year| > 0 && AllDigits(year) && |minutes| > 0 && AllDigits(minutes)
    ensures SecondarySegments(year + ", " + (minutes + [sep])) == [year, minutes + [sep]]
  {
    var rest := minutes + [sep];
    var t := year + ", " + rest;
    assert IsDigit(year[0]) && t[0] == year[0] && t[|t| - 1] == sep;
    StripUnchanged(t, " ,");
    NotInDigits(year, Nbsp[0]);
    NotInDigits(minutes, Nbsp[0]);
    NotInDigits(year, ',');
    NotInDigits(minutes, ',');
    assert forall c :: c in rest ==> c in minutes || c == sep;
    assert Nbsp[0] !in t by {
      assert forall c :: c in t ==> c in year || c in ", " || c in rest;
    }
    ReplaceAbsent(t, Nbsp, " ");
    SplitSingle(year, ", ", rest);
  }

  /** `strip()` removes a separator after the minutes, which hold no minutes suffix. */
  lemma SeparatorMinutesText(sep: char, minutes: string)
    requires '\U{1C}' <= sep <= '\U{1F}'
    requires |minutes| > 0 && AllDigits(minutes)
    ensures MinutesText(minutes + [sep]) == minutes
  {
    var rest := minutes + [sep];
    NotInDigits(minutes, MinutesSuffix[0]);
    assert forall c :: c in rest ==> c in minutes || c == sep;
    ReplaceAbsent(rest, MinutesSuffix, "");
    SeparatorIsWhitespace(sep);
    assert IsDigit(minutes[0]) && IsDigit(minutes[|minutes| - 1]);
    NotWhitespace(minutes[0]);
    NotWhitespace(minutes[|minutes| - 1]);
    StripTrailing(minutes, sep, Whitespace);
  }

  /** The body of the `for soup_film in soup_films` loop: the eleven extractors, in order. */
  function ExtractFilm(f: FilmFragment): FilmRecord {
    FilmRecord(
      FilmLink(f.linkHref),
      FilmTitle(f.titleText),
      FilmTitleEn(f.secondaryTitle),
      FilmReleaseDate(f.secondaryText),
      FilmDuration(f.secondaryText),
      FilmCountry(f.truncatedInfo),
      FilmGenre(f.firstInfoSpan),
      FilmDirector(f.truncatedInfo),
      FilmMainRoles(f.castText),
      FilmRating(f.ratingText),
      FilmVotes(f.votesText))
  }

  /** The fragment in which no element the extractors look for is present. */
  const EmptyFragment: FilmFragment :=
    FilmFragment(None, None, None, None, None, None, None, None, None)

  /** A fragment with every element missing: nothing raises, and every field is its
      sentinel. */
  lemma MissingFragmentSentinels()
    ensures ExtractFilm(EmptyFragment) == FilmRecord(
      NoLink, NoLink, NoEngTitle, 0, 0, NoCountry, NoGenre, NoDirector, NoMainRoles,
      RatingZero, 0)
  {
  }

  /** The extractors read disjoint parts of the fragment except that country and director
      share one element: two fragments that differ only in their vote text give records
      that differ only in their votes. */
  lemma VotesIndependent(f: FilmFragment, votes: Option<string>)
    ensures ExtractFilm(f.(votesText := votes)) == ExtractFilm(f).(votes := FilmVotes(votes))
  {
  }

  /** Every field is computed from its own elements only: two fragments that agree on the
      elements one field reads agree on that field. */
  lemma ExtractFilmLocality(f: FilmFragment, g: FilmFragment)
    ensures f.linkHref == g.linkHref ==> ExtractFilm(f).link == ExtractFilm(g).link
    ensures f.titleText == g.titleText ==> ExtractFilm(f).title == ExtractFilm(g).title
    ensures f.secondaryTitle == g.secondaryTitle ==>
      ExtractFilm(f).titleEn == ExtractFilm(g).titleEn
    ensures f.secondaryText == g.secondaryText ==>
      && ExtractFilm(f).releaseDate == ExtractFilm(g).releaseDate
      && ExtractFilm(f).duration == ExtractFilm(g).duration
    ensures f.truncatedInfo == g.truncatedInfo ==>
      && ExtractFilm(f).country == ExtractFilm(g).country
      && ExtractFilm(f).director == ExtractFilm(g).director
    ensures f.firstInfoSpan == g.firstInfoSpan ==> ExtractFilm(f).genre == ExtractFilm(g).genre
    ensures f.castText == g.castText ==> ExtractFilm(f).mainRoles == ExtractFilm(g).mainRoles
    ensures f.ratingText == g.ratingText ==> ExtractFilm(f).rating == ExtractFilm(g).rating
    ensures f.votesText == g.votesText ==> ExtractFilm(f).votes == ExtractFilm(g).votes
  {
  }
}
