/**
  The decisions inside the status page's movie list (`templates/status.py`,
  `Status.movie_list`): the label, CSS class and sort rank each movie status
  is shown with, the five-icon star rating drawn from the score, and what the
  page shows when the movie query returns nothing or fails. The HTML itself is
  not modelled; each movie becomes a `MovieItem` value holding what the
  markup would show.
*/
module StatusView {
  import opened JsonValues
  import Text

  // ---------------------------------------------------------------------
  // Status label and sort rank
  // ---------------------------------------------------------------------

  /** The status cell of a movie: the label, its CSS class, and the hidden
      sort rank (absent for an unknown status). */
  datatype StatusTag = StatusTag(name: string, css: string, rank: Option<int>)

  /** Whether a status is one of the five the page knows. */
  predicate KnownStatus(status: JValue)
  {
    status in [JString("Wanted"), JString("Found"), JString("Snatched"), JString("Finished"), JString("Disabled")]
  }

  /** The if/elif chain that labels a status. */
  function StatusTagOf(status: JValue): (t: StatusTag)
    ensures t.rank.Some? <==> KnownStatus(status)
    ensures t.rank.Some? ==> 1 <= t.rank.value <= 4
    ensures t.rank.Some? ==> status == JString(t.name) || (status == JString("Disabled") && t.name == "Finished")
    ensures t.rank.None? ==> t.name == "Status Unknown" && t.css == "status wanted"
  {
    if status == JString("Wanted") then StatusTag("Wanted", "status wanted", Some(1))
    else if status == JString("Found") then StatusTag("Found", "status found", Some(2))
    else if status == JString("Snatched") then StatusTag("Snatched", "status snatched", Some(3))
    else if status in [JString("Finished"), JString("Disabled")] then StatusTag("Finished", "status finished", Some(4))
    else StatusTag("Status Unknown", "status wanted", None)
  }

  /** A known status's CSS class is its label in lower case. */
  lemma CssFollowsLabel(status: JValue)
    requires KnownStatus(status)
    ensures StatusTagOf(status).css == "status " + Text.Lower(StatusTagOf(status).name)
  {
  }

  /** The sort ranks follow the life of a movie: wanted, found, snatched,
      finished; a disabled movie sorts with the finished ones, and different
      known labels never share a rank. */
  lemma RanksOrdered(s1: JValue, s2: JValue)
    requires KnownStatus(s1) && KnownStatus(s2)
    ensures StatusTagOf(s1).rank == StatusTagOf(s2).rank <==> StatusTagOf(s1).name == StatusTagOf(s2).name
    ensures StatusTagOf(JString("Wanted")).rank.value < StatusTagOf(JString("Found")).rank.value
            < StatusTagOf(JString("Snatched")).rank.value < StatusTagOf(JString("Finished")).rank.value
    ensures StatusTagOf(JString("Disabled")) == StatusTagOf(JString("Finished"))
  {
  }

  // ---------------------------------------------------------------------
  // Star rating
  // ---------------------------------------------------------------------

  /** One icon of the rating. */
  datatype Star = Full | Half | Empty

  /** `int(c)` for a one-character string: the value of a decimal digit. */
  function DigitOf(c: char): (r: Outcome<nat>)
    ensures r.Returns? <==> '0' <= c <= '9'
    ensures r.Returns? ==> r.value < 10 && Text.DigitChar(r.value) == c
    ensures r.Raises? ==> r.error == ValueError([c])
  {
    if '0' <= c <= '9' then Returns(c as int - '0' as int) else Raises(ValueError([c]))
  }

  /** The icon at position `i` of the rating for digit `d`: `d / 2` full
      stars, then a half star when `d` is odd, then empty stars. */
  function IconAt(d: nat, i: nat): Star
  {
    if i < d / 2 then Full else if i == d / 2 && d % 2 == 1 then Half else Empty
  }

  /** The score's digit: `int(score[0])`. A score that is not a string cannot
      be indexed (`TypeError`), an empty one has no first character
      (`IndexError`). */
  function ScoreDigit(score: JValue): (r: Outcome<nat>)
    ensures r.Returns? ==> r.value < 10
    ensures r.Returns? <==> score.JString? && |score.s| > 0 && '0' <= score.s[0] <= '9'
  {
    if !score.JString? then Raises(TypeError)
    else if score.s == [] then Raises(IndexError)
    else DigitOf(score.s[0])
  }

  /** The icons for a score, as a value: five empty stars for `'N/A'`, else
      the rating of the score's first digit. */
  function Stars(score: JValue): (r: Outcome<seq<Star>>)
    ensures r.Returns? ==> |r.value| == 5
    ensures score == JString("N/A") ==> r == Returns([Empty, Empty, Empty, Empty, Empty])
    ensures score != JString("N/A") ==>
              (r.Returns? <==> ScoreDigit(score).Returns?)
              && (r.Raises? ==> r.error == ScoreDigit(score).error)
              && (r.Returns? ==> forall i :: 0 <= i < 5 ==> r.value[i] == IconAt(ScoreDigit(score).value, i))
  {
    if score == JString("N/A") then Returns([Empty, Empty, Empty, Empty, Empty])
    else
      var d := ScoreDigit(score);
      if d.Raises? then Raises(d.error)
      else Returns(seq(5, i requires 0 <= i < 5 => IconAt(d.value, i)))
  }

  /** The loops that draw the rating: a full star per pair of points, a half
      star for an odd digit, and empty stars up to five. */
  method DrawStars(score: JValue) returns (r: Outcome<seq<Star>>)
    ensures r == Stars(score)
  {
    if score == JString("N/A") {
      var icons: seq<Star> := [];
      var k := 0;
      while k < 5
        invariant 0 <= k <= 5 && |icons| == k && forall i :: 0 <= i < k ==> icons[i] == Empty
      {
        icons := icons + [Empty];
        k := k + 1;
      }
      assert icons == [Empty, Empty, Empty, Empty, Empty];
      return Returns(icons);
    }
    if !score.JString? {
      return Raises(TypeError);
    }
    if score.s == [] {
      return Raises(IndexError);
    }
    var digit := DigitOf(score.s[0]);
    if digit.Raises? {
      return Raises(digit.error);
    }
    var d := digit.value;
    var icons: seq<Star> := [];
    var count := 0;
    var star := 0;
    while star < d / 2
      invariant 0 <= star <= d / 2 && count == star && |icons| == count
      invariant forall i :: 0 <= i < count ==> icons[i] == IconAt(d, i)
    {
      count := count + 1;
      icons := icons + [Full];
      star := star + 1;
    }
    if d % 2 == 1 {
      count := count + 1;
      icons := icons + [Half];
    }
    var nostar := 0;
    while nostar < 5 - count
      invariant 0 <= nostar && count + nostar <= 5 && |icons| == count + nostar
      invariant forall i :: 0 <= i < |icons| ==> icons[i] == IconAt(d, i)
    {
      icons := icons + [Empty];
      nostar := nostar + 1;
    }
    r := Returns(icons);
    assert icons == seq(5, i requires 0 <= i < 5 => IconAt(d, i));
  }

  /** `n` copies of one icon. */
  function Run(x: Star, n: nat): (r: seq<Star>)
    ensures |r| == n && forall i :: 0 <= i < n ==> r[i] == x
  {
    seq(n, i => x)
  }

  /** The rating of digit `d` is `d / 2` full stars, then one half star
      exactly when `d` is odd, then empty stars; there are never more than
      five full and half stars, so the empty run is never negative and the
      rating has five icons. */
  lemma StarRuns(d: nat)
    requires d < 10
    ensures d / 2 + d % 2 <= 5
    ensures seq(5, i requires 0 <= i < 5 => IconAt(d, i))
            == Run(Full, d / 2) + Run(Half, d % 2) + Run(Empty, 5 - d / 2 - d % 2)
  {
    var icons := seq(5, i requires 0 <= i < 5 => IconAt(d, i));
    var runs := Run(Full, d / 2) + Run(Half, d % 2) + Run(Empty, 5 - d / 2 - d % 2);
    forall i | 0 <= i < 5 ensures icons[i] == runs[i] {
      if i < d / 2 {
        assert runs[i] == Full;
      } else if i < d / 2 + d % 2 {
        assert runs[i] == Half;
      } else {
        assert runs[i] == Empty;
      }
    }
  }

  /** Only the first character of the score counts. */
  lemma FirstCharOnly(s: string, t: string)
    requires |s| > 0 && |t| > 0 && s[0] == t[0]
    requires JString(s) != JString("N/A") && JString(t) != JString("N/A")
    ensures Stars(JString(s)) == Stars(JString(t))
  {
  }

  // ---------------------------------------------------------------------
  // The movie list
  // ---------------------------------------------------------------------

  /** What the page shows for one movie. */
  datatype MovieItem = MovieItem(
    imdbid: JValue,
    poster: string,
    status: StatusTag,
    title: JValue,
    year: JValue,
    stars: seq<Star>,
    rated: Option<JValue>)

  /** What `movie_list` returns: nothing for an empty library, an error text
      when the query failed, or the list items. */
  datatype MovieList = NoMovies | ErrorText(text: string) | Items(items: seq<MovieItem>)

  const ListError: string := "Error retrieving list of user's movies. Check logs for more information"

  /** One movie's list item, reading the row's fields in the order the page
      does: `imdbid`, `status`, `title`, `year`, `score`, `rated`; the first
      missing one raises `KeyError`. */
  function Entry(data: Record, urlBase: string): (r: Outcome<MovieItem>)
    ensures r.Returns? ==>
              && (forall k :: k in ["imdbid", "status", "title", "year", "score", "rated"] ==> k in data)
              && r.value.imdbid == data["imdbid"] && r.value.title == data["title"] && r.value.year == data["year"]
              && r.value.poster == urlBase + "/static/images/posters/" + Format(data["imdbid"]) + ".jpg"
              && r.value.status == StatusTagOf(data["status"])
              && Stars(data["score"]) == Returns(r.value.stars)
              && (r.value.rated.Some? <==> Truthy(data["rated"]))
              && (r.value.rated.Some? ==> r.value.rated.value == data["rated"])
    ensures "imdbid" !in data ==> r == Raises(KeyError("imdbid"))
    ensures "imdbid" in data && "status" !in data ==> r == Raises(KeyError("status"))
    ensures "imdbid" in data && "status" in data && "title" !in data ==> r == Raises(KeyError("title"))
    ensures "imdbid" in data && "status" in data && "title" in data && "year" !in data ==> r == Raises(KeyError("year"))
    ensures "imdbid" in data && "status" in data && "title" in data && "year" in data && "score" !in data ==>
              r == Raises(KeyError("score"))
    ensures "imdbid" in data && "status" in data && "title" in data && "year" in data && "score" in data ==>
              && (Stars(data["score"]).Raises? ==> r == Raises(Stars(data["score"]).error))
              && (Stars(data["score"]).Returns? && "rated" !in data ==> r == Raises(KeyError("rated")))
              && (Stars(data["score"]).Returns? && "rated" in data ==> r.Returns?)
  {
    if "imdbid" !in data then Raises(KeyError("imdbid"))
    else if "status" !in data then Raises(KeyError("status"))
    else if "title" !in data then Raises(KeyError("title"))
    else if "year" !in data then Raises(KeyError("year"))
    else if "score" !in data then Raises(KeyError("score"))
    else
      var stars := Stars(data["score"]);
      if stars.Raises? then Raises(stars.error)
      else if "rated" !in data then Raises(KeyError("rated"))
      else
        Returns(MovieItem(
          data["imdbid"],
          urlBase + "/static/images/posters/" + Format(data["imdbid"]) + ".jpg",
          StatusTagOf(data["status"]),
          data["title"],
          data["year"],
          stars.value,
          if Truthy(data["rated"]) then Some(data["rated"]) else None))
  }

  /** `movie_list`. `movies` is what the movie query returns: `None` when it
      fails. The loop renders the movies in order and stops at the first
      error. */
  method RenderMovieList(movies: Option<seq<Record>>, urlBase: string) returns (r: Outcome<MovieList>)
    ensures movies == Some([]) ==> r == Returns(NoMovies)
    ensures movies.None? ==> r == Returns(ErrorText(ListError))
    ensures movies.Some? && movies.value != [] ==>
              && (r.Returns? <==> forall i :: 0 <= i < |movies.value| ==> Entry(movies.value[i], urlBase).Returns?)
              && (r.Returns? ==>
                    && r.value.Items? && |r.value.items| == |movies.value|
                    && forall i :: 0 <= i < |movies.value| ==> Entry(movies.value[i], urlBase) == Returns(r.value.items[i]))
              && (r.Raises? ==> exists i :: 0 <= i < |movies.value| && Entry(movies.value[i], urlBase) == Raises(r.error)
                                  && forall j :: 0 <= j < i ==> Entry(movies.value[j], urlBase).Returns?)
  {
    if movies == Some([]) {
      return Returns(NoMovies);
    }
    if movies.None? {
      return Returns(ErrorText(ListError));
    }
    var rows := movies.value;
    var items: seq<MovieItem> := [];
    var n := 0;
    while n < |rows|
      invariant 0 <= n <= |rows| && |items| == n
      invariant forall i :: 0 <= i < n ==> Entry(rows[i], urlBase) == Returns(items[i])
    {
      var item := Entry(rows[n], urlBase);
      if item.Raises? {
        return Raises(item.error);
      }
      items := items + [item.value];
      n := n + 1;
    }
    r := Returns(Items(items));
  }
}
