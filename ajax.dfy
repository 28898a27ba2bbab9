/**
  The pieces of the web handlers (`core/ajax.py`) that decide something on
  their own: which settings sections are saved, how a movie record is
  normalised before it is stored, how a library scan is split for review,
  when a manual download is refused, and which score an imported movie gets.
  The database, TMDB, the downloaders, threads and HTML rendering are not
  part of this model; what they return is passed in.
*/
module Ajax {
  import opened JsonValues
  import opened ConfigDoc
  import ConfigStore
  import Text

  // ---------------------------------------------------------------------
  // save_settings: the sections that changed
  // ---------------------------------------------------------------------

  /** Whether a submitted section equals the mirror's section, as Python
      compares a dict of strings with a dict of mirror values: the same keys,
      and every mirror value the same plain string. */
  predicate SameSection(sub: Section, cur: map<string, Value>)
  {
    ConfigStore.AsStrings(sub) == cur
  }

  /** The sections of `data` that differ from the mirror. */
  function Changed(data: Doc, mirror: Mirror): Doc
  {
    map k | k in data && k in mirror && !SameSection(data[k], mirror[k]) :: data[k]
  }

  /** The loop of `save_settings` that collects `save_data`: every submitted
      section that differs from `core.CONFIG`; a submitted section the mirror
      lacks raises `KeyError`. */
  method SettingsDiff(data: Doc, mirror: Mirror) returns (r: Outcome<Doc>)
    ensures r.Raises? <==> exists k :: k in data && k !in mirror
    ensures r.Raises? ==> r.error.KeyError? && r.error.key in data && r.error.key !in mirror
    ensures r.Returns? ==> r.value == Changed(data, mirror)
  {
    var save: Doc := map[];
    var todo := data.Keys;
    while todo != {}
      invariant todo <= data.Keys
      invariant forall k :: k in data && k !in todo ==> k in mirror
      invariant forall k :: k in save <==> k in data && k !in todo && k in mirror && !SameSection(data[k], mirror[k])
      invariant forall k :: k in save ==> save[k] == data[k]
      decreases todo
    {
      var key :| key in todo;
      if key !in mirror {
        return Raises(KeyError(key));
      }
      if !SameSection(data[key], mirror[key]) {
        save := save[key := data[key]];
      }
      todo := todo - {key};
    }
    DocEqual(save, Changed(data, mirror));
    r := Returns(save);
  }

  /** Saving only the changed sections loses nothing: every submitted
      section is either saved, with the submitted keys and values, or already
      equal to the mirror's. */
  lemma ChangedComplete(data: Doc, mirror: Mirror)
    requires forall k :: k in data ==> k in mirror
    ensures forall k :: k in data ==> k in Changed(data, mirror) || SameSection(data[k], mirror[k])
    ensures forall k :: k in Changed(data, mirror) ==> k in data && Changed(data, mirror)[k] == data[k]
    ensures forall k :: k in Changed(data, mirror) ==> !SameSection(data[k], mirror[k])
  {
  }

  /** A submitted list section with at least one key always counts as
      changed: the form sends plain strings, and the mirror built by `stash`
      holds lists in those sections, so the two never compare equal. */
  lemma ListSectionsAlwaysChanged(p: Doc, data: Doc, c: string)
    requires c in ListSections && c in data && c in p
    requires data[c] != map[]
    ensures c in Changed(data, MirrorOf(p))
  {
    var m: Mirror := MirrorOf(p);
    var k: string :| k in data[c];
    var sub := ConfigStore.AsStrings(data[c]);
    assert sub[k] == Str(data[c][k]);
    if k in m[c] {
      assert m[c][k].List?;
    } else {
      assert k in sub;
    }
    assert sub != m[c];
  }

  /** `save_settings`: collects the changed sections and, if there are any,
      hands them to `write_dict`; a failed write is reported, not raised. */
  method SaveSettings(cfg: ConfigStore.Config, data: Doc) returns (r: Outcome<Reply>)
    modifies cfg, cfg.core
    ensures r.Raises? <==> exists k :: k in data && k !in old(cfg.core.mirror)
    ensures r.Raises? ==> r.error.KeyError? && r.error.key in data
    ensures r.Returns? ==> r.value == Done || r.value == Failure("Unable to write to config file.")
    ensures (r.Raises? || (r.Returns? && Changed(data, old(cfg.core.mirror)) == map[])) ==>
              cfg.parser == old(cfg.parser) && cfg.file == old(cfg.file) && cfg.core.mirror == old(cfg.core.mirror)
    ensures r.Returns? && Changed(data, old(cfg.core.mirror)) == map[] ==> r.value == Done
    ensures r.Returns? && Changed(data, old(cfg.core.mirror)) != map[] ==>
              var save := Changed(data, old(cfg.core.mirror));
              (r.value == Done <==>
                 !ConfigStore.HasDefaultName(save) && HasListSections(ReadInto(old(cfg.parser), old(cfg.file)) + save))
    // a refused section name: nothing is written, the parser keeps what it did before refusing
    ensures r.Returns? && Changed(data, old(cfg.core.mirror)) != map[] ==>
              var save := Changed(data, old(cfg.core.mirror));
              ConfigStore.HasDefaultName(save) ==>
                && cfg.file == old(cfg.file) && cfg.core.mirror == old(cfg.core.mirror)
                && exists done, c :: c in save && ConfigStore.IsDefaultName(c)
                                     && ConfigStore.StoppedAt(cfg.parser, ReadInto(old(cfg.parser), old(cfg.file)), save, done, c)
    // otherwise the changed sections replace the parser's and the file is rewritten
    ensures r.Returns? && Changed(data, old(cfg.core.mirror)) != map[] ==>
              var save := Changed(data, old(cfg.core.mirror));
              !ConfigStore.HasDefaultName(save) ==>
                && cfg.parser == ReadInto(old(cfg.parser), old(cfg.file)) + save
                && cfg.file == Written(cfg.parser) && cfg.Synced()
                && (r.value == Done ==> cfg.core.mirror == MirrorOf(cfg.file))
                && (r.value != Done ==> cfg.core.mirror == old(cfg.core.mirror))
    ensures r.Returns? && Changed(data, old(cfg.core.mirror)) != map[] && old(cfg.Synced()) ==>
              var save := Changed(data, old(cfg.core.mirror));
              !ConfigStore.HasDefaultName(save) ==>
                && cfg.file.Keys == old(cfg.file).Keys + save.Keys
                && (forall c :: c in save ==> cfg.file[c] == WithoutName(data[c]))
                && (forall s :: s in old(cfg.file) && s !in save ==> cfg.file[s] == old(cfg.file)[s])
  {
    var diff := SettingsDiff(data, cfg.core.mirror);
    if diff.Raises? {
      return Raises(diff.error);
    }
    var save := diff.value;
    if save == map[] {
      return Returns(Done);
    }
    var written := cfg.WriteDict(save);
    if written.Raises? {
      if written.error.ValueError? {
        ghost var read := ReadInto(old(cfg.parser), old(cfg.file));
        ghost var done :| ConfigStore.StoppedAt(cfg.parser, read, save, done, written.error.arg);
      }
      return Returns(Failure("Unable to write to config file."));
    }
    r := Returns(Done);
  }

  // ---------------------------------------------------------------------
  // add_wanted_movie: normalising the record
  // ---------------------------------------------------------------------

  /** The keys a stored movie record may have. */
  const RequiredKeys: set<string> := {"added_date", "imdbid", "title", "year", "poster", "plot", "url",
                                      "score", "release_date", "rated", "status", "quality", "addeddate"}

  /** `data['release_date'][:4]` if the release date is set, else `'N/A'`;
      slicing a number or a boolean raises `TypeError`. */
  function YearOf(data: Record): (r: Outcome<JValue>)
    ensures !Truthy(Get(data, "release_date")) ==> r == Returns(JString("N/A"))
    ensures Truthy(Get(data, "release_date")) && data["release_date"].JString? ==>
              var s := data["release_date"].s;
              r.Returns? && r.value.JString? && |r.value.s| == (if |s| < 4 then |s| else 4)
              && r.value.s <= s
    ensures Truthy(Get(data, "release_date")) && !data["release_date"].JString? ==> r == Raises(TypeError)
  {
    var d := Get(data, "release_date");
    if !Truthy(d) then Returns(JString("N/A"))
    else if d.JString? then Returns(JString(d.s[..if |d.s| < 4 then |d.s| else 4]))
    else Raises(TypeError)
  }

  /** How the error message names the status of a movie already stored:
      `Disabled` is reported as `Finished`, anything else as it is. */
  function ExistingLabel(status: JValue): (name: string)
    ensures status == JString("Disabled") ==> name == "Finished"
    ensures status != JString("Disabled") ==> name == Format(status)
  {
    if status == JString("Disabled") then "Finished" else Format(status)
  }

  /** `d` with only the keys in `keys`. */
  function Restrict(d: Record, keys: set<string>): Record
  {
    map k | k in d && k in keys :: d[k]
  }

  /** `for i in data.keys(): if i not in required_keys: del data[i]`. */
  method KeepRequired(data: Record) returns (out: Record)
    ensures out == Restrict(data, RequiredKeys)
  {
    out := data;
    var todo := data.Keys;
    while todo != {}
      invariant todo <= data.Keys
      invariant forall k :: k in out <==> k in data && (k in todo || k in RequiredKeys)
      invariant forall k :: k in out ==> out[k] == data[k]
      decreases todo
    {
      var i :| i in todo;
      if i !in RequiredKeys {
        out := out - {i};
      }
      todo := todo - {i};
    }
    assert out.Keys == Restrict(data, RequiredKeys).Keys;
  }

  /** What the whitelist keeps: the required keys the record had, with their
      values, and nothing else. */
  lemma RestrictMeaning(data: Record)
    ensures Restrict(data, RequiredKeys).Keys <= RequiredKeys
    ensures forall k :: k in data && k in RequiredKeys ==> k in Restrict(data, RequiredKeys)
    ensures forall k :: k in Restrict(data, RequiredKeys) ==> Restrict(data, RequiredKeys)[k] == data[k]
  {
  }

  /** The message that refuses a movie already stored with `status`. */
  function ExistsMessage(title: JValue, year: JValue, status: JValue): string
  {
    Format(title) + " " + Format(year) + " is " + ExistingLabel(status) + ", cannot add."
  }

  /** The message when TMDB knows no imdb id for the movie. */
  function NoImdbMessage(title: JValue): string
  {
    "Could not find imdb id for " + Format(title) + ". Unable to add."
  }

  const DatabaseMessage: string := "Could not write to database. Check logs for more information."

  /** Whether `add_wanted_movie` gets past the title, the year and the imdb
      id lookup. */
  predicate HasImdb(data: Record, lookup: JValue)
  {
    "title" in data && YearOf(data).Returns?
    && (Get(data, "imdbid") == JNull ==> "id" in data && Truthy(lookup))
  }

  /** Whether the record carries the four TMDB fields the handler copies. */
  predicate HasTmdbFields(d: Record)
  {
    "poster_path" in d && "overview" in d && "id" in d && "vote_average" in d
  }

  /** The record once the year is set and a missing imdb id is looked up.
      (Rewriting a present id with its own value leaves the record as it is;
      writing it this way keeps the key set independent of the branch.) */
  function Identified(data: Record, lookup: JValue): Record
    requires "title" in data && YearOf(data).Returns?
  {
    var d := data["year" := YearOf(data).value];
    d["imdbid" := if Get(d, "imdbid") == JNull then lookup else d["imdbid"]]
  }

  /** The record once the poster path, plot, page address and score are
      filled in from the TMDB fields. */
  function Filled(m: Record): Record
    requires "imdbid" in m && "overview" in m && "id" in m && "vote_average" in m
  {
    m["poster" := JString("images/poster/" + Format(m["imdbid"]) + ".jpg")]
     ["plot" := m["overview"]]
     ["url" := JString("https://www.themoviedb.org/movie/" + Format(m["id"]))]
     ["score" := m["vote_average"]]
  }

  /** The record once a missing status defaults to `Wanted` and the date is set. */
  function Dated(f: Record, today: string): Record
  {
    f["status" := if Truthy(Get(f, "status")) then f["status"] else JString("Wanted")]
     ["added_date" := JString(today)]
  }

  /** The whitelisted record with a missing quality profile defaulted. */
  function WithQuality(w: Record): Record
  {
    w["quality" := if Get(w, "quality") == JNull then JString("Default") else w["quality"]]
  }

  /** The row `add_wanted_movie` writes to the database. */
  function Stored(data: Record, lookup: JValue, today: string): Record
    requires HasImdb(data, lookup) && HasTmdbFields(data)
  {
    WithQuality(Restrict(Dated(Filled(Identified(data, lookup)), today), RequiredKeys))
  }

  /** The keys of the stored row: the required keys and nothing else; of the
      optional ones, exactly those the request carried. */
  lemma StoredKeys(data: Record, lookup: JValue, today: string)
    requires HasImdb(data, lookup) && HasTmdbFields(data)
    ensures Stored(data, lookup, today).Keys <= RequiredKeys
    ensures forall k :: k in {"added_date", "imdbid", "title", "year", "poster", "plot", "url", "score", "status", "quality"} ==>
                          k in Stored(data, lookup, today)
    ensures forall k :: k in {"release_date", "rated", "addeddate"} ==>
                          (k in Stored(data, lookup, today) <==> k in data)
  {
  }

  /** The stored row keeps the request's title and optional fields, with the
      computed year and the imdb id (looked up if absent). */
  lemma StoredCopied(data: Record, lookup: JValue, today: string)
    requires HasImdb(data, lookup) && HasTmdbFields(data)
    ensures var row := Stored(data, lookup, today);
            && "title" in row && row["title"] == data["title"]
            && "year" in row && row["year"] == YearOf(data).value
            && "imdbid" in row && row["imdbid"] == (if Get(data, "imdbid") == JNull then lookup else data["imdbid"])
  {
  }

  /** The optional fields `release_date`, `rated` and `addeddate` are in the
      stored row exactly when the request had them, with the request's value. */
  lemma StoredOptional(data: Record, lookup: JValue, today: string)
    requires HasImdb(data, lookup) && HasTmdbFields(data)
    ensures forall k :: k in {"release_date", "rated", "addeddate"} ==>
                          (k in Stored(data, lookup, today) <==> k in data)
                          && (k in data ==> Stored(data, lookup, today)[k] == data[k])
  {
    forall k | k in {"release_date", "rated", "addeddate"}
      ensures (k in Stored(data, lookup, today) <==> k in data)
              && (k in data ==> Stored(data, lookup, today)[k] == data[k])
    {
      var m := Identified(data, lookup);
      var s := Dated(Filled(m), today);
      assert k in m <==> k in data;
      assert k in s <==> k in m;
      assert k in RequiredKeys;
    }
  }

  /** The stored row's poster path and TMDB page are built from the ids, plot
      and score are copied from overview and vote_average, and status, date
      and quality take their defaults. */
  lemma StoredFilled(data: Record, lookup: JValue, today: string)
    requires HasImdb(data, lookup) && HasTmdbFields(data)
    ensures var row := Stored(data, lookup, today);
            && "imdbid" in row && "poster" in row
            && row["poster"] == JString("images/poster/" + Format(row["imdbid"]) + ".jpg")
            && "plot" in row && row["plot"] == data["overview"]
            && "url" in row && row["url"] == JString("https://www.themoviedb.org/movie/" + Format(data["id"]))
            && "score" in row && row["score"] == data["vote_average"]
            && "status" in row && row["status"] == (if Truthy(Get(data, "status")) then data["status"] else JString("Wanted"))
            && "added_date" in row && row["added_date"] == JString(today)
            && "quality" in row && row["quality"] == (if Get(data, "quality") == JNull then JString("Default") else data["quality"])
  {
  }

  /** Writing a key's own value back leaves a record as it is. */
  lemma RewriteSame(d: Record, k: string)
    requires k in d
    ensures d[k := d[k]] == d
  {
  }

  /** `add_wanted_movie` up to the database write. `lookup` is what TMDB
      returns for the record's `id`, `existing` the status of the movie
      already stored under the record's imdb id (if any), `today` the date and
      `stored` whether the database write succeeds. Also returns the record
      in the state the handler leaves it. */
  method AddWantedMovie(data: Record, lookup: JValue, existing: Option<JValue>, today: string, stored: bool)
    returns (r: Outcome<Reply>, record: Record)
    ensures "title" !in data ==> r == Raises(KeyError("title"))
    ensures "title" in data && YearOf(data).Raises? ==> r == Raises(TypeError)
    ensures "title" in data && YearOf(data).Returns? && Get(data, "imdbid") == JNull ==>
              ("id" !in data ==> r == Raises(KeyError("id")))
              && ("id" in data && !Truthy(lookup) ==> r == Returns(Failure(NoImdbMessage(data["title"]))))
    ensures HasImdb(data, lookup) && existing.Some? ==>
              r == Returns(Failure(ExistsMessage(data["title"], YearOf(data).value, existing.value)))
    ensures HasImdb(data, lookup) && existing.None? ==>
              && ("poster_path" !in data ==> r == Raises(KeyError("poster_path")))
              && ("poster_path" in data && "overview" !in data ==> r == Raises(KeyError("overview")))
              && ("poster_path" in data && "overview" in data && "id" !in data ==> r == Raises(KeyError("id")))
              && ("poster_path" in data && "overview" in data && "id" in data && "vote_average" !in data ==>
                    r == Raises(KeyError("vote_average")))
    ensures HasImdb(data, lookup) && existing.None? && HasTmdbFields(data) ==>
              && r == Returns(if stored then Success(Format(data["title"]) + " " + Format(YearOf(data).value) + " added to wanted list.")
                              else Failure(DatabaseMessage))
              && record == Stored(data, lookup, today)
  {
    record := data;
    if "title" !in record {
      return Raises(KeyError("title")), record;
    }
    var title := record["title"];
    var year := YearOf(record);
    if year.Raises? {
      return Raises(year.error), record;
    }
    record := record["year" := year.value];
    if Get(record, "imdbid") == JNull {
      if "id" !in record {
        return Raises(KeyError("id")), record;
      }
      record := record["imdbid" := lookup];
      if !Truthy(record["imdbid"]) {
        return Returns(Failure(NoImdbMessage(title))), record;
      }
    } else {
      RewriteSame(record, "imdbid");
    }
    assert record == Identified(data, lookup);
    if existing.Some? {
      return Returns(Failure(ExistsMessage(title, year.value, existing.value))), record;
    }
    ghost var identified := record;
    if "poster_path" !in record {
      return Raises(KeyError("poster_path")), record;
    }
    record := record["poster" := JString("images/poster/" + Format(record["imdbid"]) + ".jpg")];
    if "overview" !in record {
      return Raises(KeyError("overview")), record;
    }
    record := record["plot" := record["overview"]];
    if "id" !in record {
      return Raises(KeyError("id")), record;
    }
    record := record["url" := JString("https://www.themoviedb.org/movie/" + Format(record["id"]))];
    if "vote_average" !in record {
      return Raises(KeyError("vote_average")), record;
    }
    record := record["score" := record["vote_average"]];
    assert record == Filled(identified);
    ghost var filled := record;
    if !Truthy(Get(record, "status")) {
      record := record["status" := JString("Wanted")];
    } else {
      RewriteSame(record, "status");
    }
    record := record["added_date" := JString(today)];
    assert record == Dated(filled, today);
    record := KeepRequired(record);
    if Get(record, "quality") == JNull {
      record := record["quality" := JString("Default")];
    } else {
      RewriteSame(record, "quality");
    }
    if stored {
      r := Returns(Success(Format(title) + " " + Format(year.value) + " added to wanted list."));
    } else {
      r := Returns(Failure(DatabaseMessage));
    }
  }

  // ---------------------------------------------------------------------
  // scan_library: new movies, split for review
  // ---------------------------------------------------------------------

  /** The key a scanned file is listed under: its path with the library
      directory removed. */
  function ScanKey(path: string, directory: string): string
  {
    Text.RemoveAll(path, directory)
  }

  /** Whether a scanned movie is new: its imdb id is not one of the library's. */
  predicate IsNew(v: Record, library: seq<JValue>)
    requires "imdbid" in v
  {
    v["imdbid"] !in library
  }

  /** Whether the first `n` scanned movies carry an `imdbid` key. */
  predicate HaveImdbBelow(entries: seq<(string, Record)>, n: nat)
    requires n <= |entries|
  {
    forall i :: 0 <= i < n ==> "imdbid" in entries[i].1
  }

  /** Whether every scanned movie carries an `imdbid` key. */
  predicate AllHaveImdb(entries: seq<(string, Record)>)
  {
    HaveImdbBelow(entries, |entries|)
  }

  /** Whether entry `i`, among the first `n`, is new and no later new entry
      among them takes the same key. */
  predicate LastNewBelow(entries: seq<(string, Record)>, directory: string, library: seq<JValue>, n: nat, i: int)
    requires n <= |entries| && HaveImdbBelow(entries, n)
  {
    0 <= i < n && IsNew(entries[i].1, library)
    && forall j :: i < j < n && IsNew(entries[j].1, library) ==>
         ScanKey(entries[j].0, directory) != ScanKey(entries[i].0, directory)
  }

  /** The dict comprehension of `scan_library` over the first `n` scanned
      files in iteration order. */
  function Collect(entries: seq<(string, Record)>, directory: string, library: seq<JValue>, n: nat)
    : (r: Outcome<map<string, Record>>)
    requires n <= |entries|
    ensures r.Raises? <==> !HaveImdbBelow(entries, n)
    ensures r.Raises? ==> r.error == KeyError("imdbid")
  {
    if n == 0 then Returns(map[])
    else
      var prev := Collect(entries, directory, library, n - 1);
      var (path, v) := entries[n - 1];
      if prev.Raises? then prev
      else if "imdbid" !in v then Raises(KeyError("imdbid"))
      else Returns(if IsNew(v, library) then prev.value[ScanKey(path, directory) := v] else prev.value)
  }

  /** The dict comprehension of `scan_library` over the scanned files, in
      iteration order: the movies whose imdb id is not in the library, keyed
      by path without the directory; when two paths give the same key the
      later one wins. A scanned movie without an `imdbid` raises `KeyError`. */
  function NewMovies(entries: seq<(string, Record)>, directory: string, library: seq<JValue>)
    : (r: Outcome<map<string, Record>>)
    ensures r.Raises? <==> !AllHaveImdb(entries)
    ensures r.Raises? ==> r.error == KeyError("imdbid")
  {
    Collect(entries, directory, library, |entries|)
  }

  /** Every new scanned movie among the first `n` is listed under its key. */
  lemma {:induction false} CollectComplete(entries: seq<(string, Record)>, directory: string, library: seq<JValue>, n: nat)
    requires n <= |entries| && HaveImdbBelow(entries, n)
    ensures forall i :: 0 <= i < n && IsNew(entries[i].1, library) ==>
              ScanKey(entries[i].0, directory) in Collect(entries, directory, library, n).value
  {
    if n > 0 {
      CollectComplete(entries, directory, library, n - 1);
    }
  }

  /** Whether every movie in `m` is, among the first `n` scanned, the last
      new one under its key. */
  ghost predicate ListedLast(entries: seq<(string, Record)>, directory: string, library: seq<JValue>, n: nat,
                             m: map<string, Record>)
    requires n <= |entries| && HaveImdbBelow(entries, n)
  {
    forall k :: k in m ==>
      exists i :: LastNewBelow(entries, directory, library, n, i)
                  && ScanKey(entries[i].0, directory) == k && m[k] == entries[i].1
  }

  /** Every movie listed from the first `n` is the last new one under its key. */
  lemma {:induction false} CollectSound(entries: seq<(string, Record)>, directory: string, library: seq<JValue>, n: nat)
    requires n <= |entries| && HaveImdbBelow(entries, n)
    ensures ListedLast(entries, directory, library, n, Collect(entries, directory, library, n).value)
  {
    if n > 0 {
      var (path, v) := entries[n - 1];
      var prev := Collect(entries, directory, library, n - 1).value;
      CollectSound(entries, directory, library, n - 1);
      var m := Collect(entries, directory, library, n).value;
      forall k | k in m
        ensures exists i :: LastNewBelow(entries, directory, library, n, i)
                            && ScanKey(entries[i].0, directory) == k && m[k] == entries[i].1
      {
        if IsNew(v, library) && k == ScanKey(path, directory) {
          assert LastNewBelow(entries, directory, library, n, n - 1);
        } else {
          assert k in prev && m[k] == prev[k];
          var i :| LastNewBelow(entries, directory, library, n - 1, i)
                   && ScanKey(entries[i].0, directory) == k && prev[k] == entries[i].1;
          assert LastNewBelow(entries, directory, library, n, i);
        }
      }
    }
  }

  /** Every new scanned movie is listed under its key. */
  lemma NewMoviesComplete(entries: seq<(string, Record)>, directory: string, library: seq<JValue>)
    requires AllHaveImdb(entries)
    ensures forall i :: 0 <= i < |entries| && IsNew(entries[i].1, library) ==>
              ScanKey(entries[i].0, directory) in NewMovies(entries, directory, library).value
  {
    CollectComplete(entries, directory, library, |entries|);
  }

  /** Every listed movie is the last new scanned movie under its key; in
      particular none has an imdb id already in the library. */
  lemma NewMoviesSound(entries: seq<(string, Record)>, directory: string, library: seq<JValue>)
    requires AllHaveImdb(entries)
    ensures ListedLast(entries, directory, library, |entries|, NewMovies(entries, directory, library).value)
    ensures var m := NewMovies(entries, directory, library).value;
            forall k :: k in m ==> "imdbid" in m[k] && m[k]["imdbid"] !in library
  {
    CollectSound(entries, directory, library, |entries|);
  }

  /** Whether a scanned movie is complete enough for review: both its imdb id
      and its resolution are set. */
  predicate ReadyForReview(v: Record)
  {
    Truthy(Get(v, "imdbid")) && Truthy(Get(v, "resolution"))
  }

  /** The loop of `scan_library` that sorts the new movies into those ready
      for review and those that are incomplete. */
  method Partition(movies: map<string, Record>) returns (review: map<string, Record>, incomplete: map<string, Record>)
    ensures review.Keys !! incomplete.Keys
    ensures review.Keys + incomplete.Keys == movies.Keys
    ensures forall k :: k in review ==> review[k] == movies[k] && ReadyForReview(movies[k])
    ensures forall k :: k in incomplete ==> incomplete[k] == movies[k] && !ReadyForReview(movies[k])
  {
    review, incomplete := map[], map[];
    var todo := movies.Keys;
    while todo != {}
      invariant todo <= movies.Keys
      invariant review.Keys !! incomplete.Keys && review.Keys !! todo && incomplete.Keys !! todo
      invariant review.Keys + incomplete.Keys + todo == movies.Keys
      invariant forall k :: k in review ==> review[k] == movies[k] && ReadyForReview(movies[k])
      invariant forall k :: k in incomplete ==> incomplete[k] == movies[k] && !ReadyForReview(movies[k])
      decreases todo
    {
      var k :| k in todo;
      var v := movies[k];
      if Truthy(Get(v, "imdbid")) && Truthy(Get(v, "resolution")) {
        review := review[k := v];
      } else {
        incomplete := incomplete[k := v];
      }
      todo := todo - {k};
    }
  }

  /** `scan_library` after the directory scan: the movies already in the
      library are dropped, and the rest split into review and incomplete. */
  method ScanLibrary(entries: seq<(string, Record)>, directory: string, library: seq<JValue>)
    returns (r: Outcome<(map<string, Record>, map<string, Record>)>)
    ensures r.Raises? <==> !AllHaveImdb(entries)
    ensures r.Raises? ==> r.error == KeyError("imdbid")
    ensures r.Returns? ==>
              var (review, incomplete) := r.value;
              var found := NewMovies(entries, directory, library);
              && found.Returns?
              && review.Keys + incomplete.Keys == found.value.Keys
              && (forall k :: k in review ==> review[k] == found.value[k])
              && (forall k :: k in incomplete ==> incomplete[k] == found.value[k])
    ensures r.Returns? ==>
              var (review, incomplete) := r.value;
              && ListedLast(entries, directory, library, |entries|, review)
              && ListedLast(entries, directory, library, |entries|, incomplete)
    ensures r.Returns? ==>
              var (review, incomplete) := r.value;
              && review.Keys !! incomplete.Keys
              && (forall i :: 0 <= i < |entries| && IsNew(entries[i].1, library) ==>
                    ScanKey(entries[i].0, directory) in review.Keys + incomplete.Keys)
              && (forall k :: k in review ==> ReadyForReview(review[k]))
              && (forall k :: k in incomplete ==> !ReadyForReview(incomplete[k]))
              && (forall k :: k in review ==> "imdbid" in review[k] && review[k]["imdbid"] !in library)
              && (forall k :: k in incomplete ==> "imdbid" in incomplete[k] && incomplete[k]["imdbid"] !in library)
  {
    var movies := NewMovies(entries, directory, library);
    if movies.Raises? {
      return Raises(movies.error);
    }
    NewMoviesSound(entries, directory, library);
    NewMoviesComplete(entries, directory, library);
    var review, incomplete := Partition(movies.value);
    r := Returns((review, incomplete));
  }

  // ---------------------------------------------------------------------
  // manual_download: which kinds a disabled downloader refuses
  // ---------------------------------------------------------------------

  /** The refusal `manual_download` sends before it looks at the database:
      an NZB link when no usenet downloader is enabled, a torrent or magnet
      link when no torrent downloader is enabled. */
  function KindRefusal(kind: string, usenetEnabled: JValue, torrentEnabled: JValue): (r: Option<string>)
    ensures r.Some? <==> (kind == "nzb" && !Truthy(usenetEnabled))
                         || ((kind == "torrent" || kind == "magnet") && !Truthy(torrentEnabled))
    ensures kind == "nzb" && !Truthy(usenetEnabled) ==>
              r == Some("Link is NZB but no Usent downloader is enabled.")
    ensures (kind == "torrent" || kind == "magnet") && !Truthy(torrentEnabled) ==>
              r == Some("Link is " + kind + " but no Torrent downloader is enabled.")
  {
    if kind == "nzb" && !Truthy(usenetEnabled) then Some("Link is NZB but no Usent downloader is enabled.")
    else if kind in ["torrent", "magnet"] && !Truthy(torrentEnabled) then
      Some("Link is " + kind + " but no Torrent downloader is enabled.")
    else None
  }

  /** What `manual_download` does next: answer at once, or hand a search
      result to the snatcher. */
  datatype DownloadStep = Answer(reply: Reply) | Snatch(result: Record)

  const NoResultMessage: string :=
    "Unable to get download information from the database. Check logs for more information."

  /** `core.CONFIG['Downloader']['Sources'][flag]`. The mirror `stash` builds
      holds strings and lists two levels down, so the third subscript indexes
      a string or a list by a string, which raises `TypeError`; before that, a
      missing `Downloader` section or `Sources` key raises `KeyError`. */
  function SourcesFlag(mirror: Mirror, flag: string): (r: Outcome<JValue>)
    ensures "Downloader" !in mirror ==> r == Raises(KeyError("Downloader"))
    ensures "Downloader" in mirror && "Sources" !in mirror["Downloader"] ==> r == Raises(KeyError("Sources"))
    ensures "Downloader" in mirror && "Sources" in mirror["Downloader"] ==> r == Raises(TypeError)
  {
    if "Downloader" !in mirror then Raises(KeyError("Downloader"))
    else if "Sources" !in mirror["Downloader"] then Raises(KeyError("Sources"))
    else Raises(TypeError)
  }

  /** What `manual_download` does once it holds the two downloader flags.
      `row` is what the database returns for the link's guid (`None` when the
      query fails, which `dict()` rejects with `TypeError`); `year` is the
      year the page passed in. */
  function DecideDownload(kind: string, usenetEnabled: JValue, torrentEnabled: JValue,
                          row: Option<Record>, year: string): (r: Outcome<DownloadStep>)
    ensures KindRefusal(kind, usenetEnabled, torrentEnabled).Some? ==>
              r == Returns(Answer(Failure(KindRefusal(kind, usenetEnabled, torrentEnabled).value)))
    ensures KindRefusal(kind, usenetEnabled, torrentEnabled).None? ==>
              && (row.None? ==> r == Raises(TypeError))
              && (row.Some? && row.value == map[] ==> r == Returns(Answer(Failure(NoResultMessage))))
              && (row.Some? && row.value != map[] ==>
                    r.Returns? && r.value.Snatch?
                    && r.value.result.Keys == row.value.Keys + {"year"}
                    && r.value.result["year"] == JString(year)
                    && forall k :: k in row.value && k != "year" ==> r.value.result[k] == row.value[k])
  {
    var refusal := KindRefusal(kind, usenetEnabled, torrentEnabled);
    if refusal.Some? then Returns(Answer(Failure(refusal.value)))
    else if row.None? then Raises(TypeError)
    else if row.value != map[] then Returns(Snatch(row.value["year" := JString(year)]))
    else Returns(Answer(Failure(NoResultMessage)))
  }

  /** `manual_download`: reads the torrent flag, then the usenet flag, from
      the mirror, then decides. Against the mirror `stash` builds, the reads
      raise before anything is refused or looked up. */
  function ManualDownload(kind: string, mirror: Mirror, row: Option<Record>, year: string): (r: Outcome<DownloadStep>)
    ensures "Downloader" !in mirror ==> r == Raises(KeyError("Downloader"))
    ensures "Downloader" in mirror && "Sources" !in mirror["Downloader"] ==> r == Raises(KeyError("Sources"))
    ensures "Downloader" in mirror && "Sources" in mirror["Downloader"] ==> r == Raises(TypeError)
  {
    match SourcesFlag(mirror, "torrentenabled")
    case Raises(e) => Raises(e)
    case Returns(torrentEnabled) =>
      match SourcesFlag(mirror, "usenetenabled")
      case Raises(e) => Raises(e)
      case Returns(usenetEnabled) => DecideDownload(kind, usenetEnabled, torrentEnabled, row, year)
  }

  /** Whatever the parser's document, the handler never reaches its
      refusals or the database: it raises reading the flags from the mirror
      that `stash` built from that document. */
  lemma FlagsUnreadable(p: Doc, kind: string, row: Option<Record>, year: string)
    ensures ManualDownload(kind, MirrorOf(p), row, year).Raises?
    ensures ManualDownload(kind, MirrorOf(p), row, year).error in
              [KeyError("Downloader"), KeyError("Sources"), TypeError]
  {
  }

  /** A refused kind is refused whatever the database holds: the refusal
      comes before the lookup. */
  lemma RefusalBeforeLookup(kind: string, usenetEnabled: JValue, torrentEnabled: JValue,
                            row1: Option<Record>, row2: Option<Record>, year: string)
    requires KindRefusal(kind, usenetEnabled, torrentEnabled).Some?
    ensures DecideDownload(kind, usenetEnabled, torrentEnabled, row1, year)
         == DecideDownload(kind, usenetEnabled, torrentEnabled, row2, year)
    ensures DecideDownload(kind, usenetEnabled, torrentEnabled, row1, year).Returns?
  {
  }

  /** With a downloader enabled for its kind, a link is never refused; kinds
      other than NZB, torrent and magnet are never refused. */
  lemma EnabledNotRefused(kind: string, usenetEnabled: JValue, torrentEnabled: JValue)
    ensures kind == "nzb" && Truthy(usenetEnabled) ==> KindRefusal(kind, usenetEnabled, torrentEnabled).None?
    ensures (kind == "torrent" || kind == "magnet") && Truthy(torrentEnabled) ==>
              KindRefusal(kind, usenetEnabled, torrentEnabled).None?
    ensures kind != "nzb" && kind != "torrent" && kind != "magnet" ==>
              KindRefusal(kind, usenetEnabled, torrentEnabled).None?
  {
  }

  // ---------------------------------------------------------------------
  // submit_import: the score each imported movie is given
  // ---------------------------------------------------------------------

  /** The inner loop of `submit_import`'s score step: the score of the first
      scored search result whose imdb id equals `id` (`None` if there is
      none). Comparing reads the result's `imdbid` and then the movie's, so a
      result without one, or a movie without one when there is a result to
      compare, raises `KeyError`; a match without a `score` does too. */
  function FirstScore(fake: seq<Record>, id: Option<JValue>): (r: Outcome<JValue>)
    ensures fake == [] ==> r == Returns(JNull)
    ensures r.Returns? && Truthy(r.value) ==> id.Some?
  {
    if fake == [] then Returns(JNull)
    else if "imdbid" !in fake[0] then Raises(KeyError("imdbid"))
    else if id.None? then Raises(KeyError("imdbid"))
    else if fake[0]["imdbid"] == id.value then
      (if "score" in fake[0] then Returns(fake[0]["score"]) else Raises(KeyError("score")))
    else FirstScore(fake[1..], id)
  }

  /** When every result has an `imdbid`, the score found is the first
      matching result's, and `None` exactly when none matches. */
  lemma {:induction false} FirstScoreMatches(fake: seq<Record>, id: JValue)
    requires forall j :: 0 <= j < |fake| ==> "imdbid" in fake[j]
    ensures (forall j :: 0 <= j < |fake| ==> fake[j]["imdbid"] != id) ==> FirstScore(fake, Some(id)) == Returns(JNull)
    ensures forall i :: 0 <= i < |fake| && fake[i]["imdbid"] == id
                        && (forall j :: 0 <= j < i ==> fake[j]["imdbid"] != id) ==>
              FirstScore(fake, Some(id)) == (if "score" in fake[i] then Returns(fake[i]["score"]) else Raises(KeyError("score")))
  {
    if fake != [] && fake[0]["imdbid"] != id {
      FirstScoreMatches(fake[1..], id);
      forall i | 0 <= i < |fake| && fake[i]["imdbid"] == id && (forall j :: 0 <= j < i ==> fake[j]["imdbid"] != id)
        ensures FirstScore(fake, Some(id)) == (if "score" in fake[i] then Returns(fake[i]["score"]) else Raises(KeyError("score")))
      {
        assert i > 0 && fake[1..][i - 1] == fake[i];
        assert forall j :: 0 <= j < i - 1 ==> fake[1..][j]["imdbid"] != id by {
          forall j | 0 <= j < i - 1 ensures fake[1..][j]["imdbid"] != id {
            assert fake[1..][j] == fake[j + 1];
          }
        }
      }
      if forall j :: 0 <= j < |fake| ==> fake[j]["imdbid"] != id {
        assert forall j :: 0 <= j < |fake| - 1 ==> fake[1..][j]["imdbid"] != id by {
          forall j | 0 <= j < |fake| - 1 ensures fake[1..][j]["imdbid"] != id {
            assert fake[1..][j] == fake[j + 1];
          }
        }
      }
    }
  }

  /** The `imdbid` of a movie, as `Some`, or `None` when it has none. */
  function ImdbOf(movie: Record): Option<JValue>
  {
    if "imdbid" in movie then Some(movie["imdbid"]) else None
  }

  /** The score step of `submit_import`, as a value: the database updates
      `(imdbid, score)` made for the imported movies in order (none for a
      movie whose score is falsy), and the `KeyError` that ends the handler
      part-way, if one does. */
  function ScoreUpdates(success: seq<Record>, fake: seq<Record>): (r: (seq<(JValue, JValue)>, Option<PyError>))
    ensures |r.0| <= |success|
    ensures forall u :: u in r.0 ==> Truthy(u.1) && FirstScore(fake, Some(u.0)) == Returns(u.1)
    ensures forall u :: u in r.0 ==> exists i :: 0 <= i < |success| && ImdbOf(success[i]) == Some(u.0)
  {
    if success == [] then ([], None)
    else
      var score := FirstScore(fake, ImdbOf(success[0]));
      if score.Raises? then ([], Some(score.error))
      else
        var rest := ScoreUpdates(success[1..], fake);
        assert forall u :: u in rest.0 ==> exists i :: 0 <= i < |success| && ImdbOf(success[i]) == Some(u.0) by {
          forall u | u in rest.0 ensures exists i :: 0 <= i < |success| && ImdbOf(success[i]) == Some(u.0) {
            var i :| 0 <= i < |success| - 1 && ImdbOf(success[1..][i]) == Some(u.0);
            assert success[1..][i] == success[i + 1];
          }
        }
        if Truthy(score.value) then ([(ImdbOf(success[0]).value, score.value)] + rest.0, rest.1)
        else rest
  }

  /** When no `KeyError` ends the step, every imported movie whose first
      matching score is truthy gets its update. */
  lemma {:induction false} ScoreUpdatesComplete(success: seq<Record>, fake: seq<Record>)
    requires ScoreUpdates(success, fake).1.None?
    ensures forall i :: 0 <= i < |success| && "imdbid" in success[i]
                        && FirstScore(fake, Some(success[i]["imdbid"])).Returns?
                        && Truthy(FirstScore(fake, Some(success[i]["imdbid"])).value) ==>
              (success[i]["imdbid"], FirstScore(fake, Some(success[i]["imdbid"])).value) in ScoreUpdates(success, fake).0
  {
    if success != [] {
      ScoreUpdatesComplete(success[1..], fake);
      forall i | 0 < i < |success| ensures success[1..][i - 1] == success[i] {
      }
    }
  }

  /** `idx` names, in increasing order, the imported movie each update
      belongs to: one movie per update, each update being that movie's imdb
      id with its truthy first score. */
  ghost predicate OnePerMovie(success: seq<Record>, fake: seq<Record>, ups: seq<(JValue, JValue)>, idx: seq<nat>)
  {
    && |idx| == |ups|
    && (forall j :: 0 <= j < |idx| ==>
          && idx[j] < |success| && ImdbOf(success[idx[j]]) == Some(ups[j].0)
          && Truthy(ups[j].1) && FirstScore(fake, Some(ups[j].0)) == Returns(ups[j].1))
    && (forall j, k :: 0 <= j < k < |idx| ==> idx[j] < idx[k])
  }

  /** The updates come one per imported movie, in the movies' order: no
      movie is updated twice. */
  lemma {:induction false} ScoreUpdatesOnePerMovie(success: seq<Record>, fake: seq<Record>)
    ensures exists idx :: OnePerMovie(success, fake, ScoreUpdates(success, fake).0, idx)
  {
    if success == [] || FirstScore(fake, ImdbOf(success[0])).Raises? {
      assert OnePerMovie(success, fake, ScoreUpdates(success, fake).0, []);
    } else {
      var score := FirstScore(fake, ImdbOf(success[0]));
      var rest := ScoreUpdates(success[1..], fake);
      ScoreUpdatesOnePerMovie(success[1..], fake);
      var tail :| OnePerMovie(success[1..], fake, rest.0, tail);
      var shifted := Shifted(tail);
      ShiftedIndices(success, fake, rest.0, tail);
      if Truthy(score.value) {
        assert "imdbid" in success[0];
        var u := (success[0]["imdbid"], score.value);
        assert ScoreUpdates(success, fake).0 == [u] + rest.0;
        PrependIndex(success, fake, u, rest.0, shifted);
      } else {
        assert ScoreUpdates(success, fake).0 == rest.0;
      }
    }
  }

  /** Every index one further on. */
  function Shifted(idx: seq<nat>): (r: seq<nat>)
    ensures |r| == |idx| && forall j :: 0 <= j < |idx| ==> r[j] == idx[j] + 1
  {
    seq(|idx|, j requires 0 <= j < |idx| => idx[j] + 1)
  }

  /** Indices into the later movies, shifted, index the whole list. */
  lemma ShiftedIndices(success: seq<Record>, fake: seq<Record>, ups: seq<(JValue, JValue)>, tail: seq<nat>)
    requires success != [] && OnePerMovie(success[1..], fake, ups, tail)
    ensures OnePerMovie(success, fake, ups, Shifted(tail))
    ensures forall j :: 0 <= j < |tail| ==> Shifted(tail)[j] > 0
  {
    var shifted := Shifted(tail);
    forall j | 0 <= j < |shifted|
      ensures shifted[j] < |success| && success[shifted[j]] == success[1..][tail[j]]
    {
    }
  }

  /** An update for the first movie goes before those of the later ones. */
  lemma PrependIndex(success: seq<Record>, fake: seq<Record>, u: (JValue, JValue), ups: seq<(JValue, JValue)>,
                     idx: seq<nat>)
    requires success != [] && OnePerMovie(success, fake, ups, idx)
    requires forall j :: 0 <= j < |idx| ==> idx[j] > 0
    requires ImdbOf(success[0]) == Some(u.0) && Truthy(u.1) && FirstScore(fake, Some(u.0)) == Returns(u.1)
    ensures OnePerMovie(success, fake, [u] + ups, [0] + idx)
  {
    var all, allIdx := [u] + ups, [0] + idx;
    forall j | 0 < j < |allIdx|
      ensures allIdx[j] == idx[j - 1] && all[j] == ups[j - 1]
    {
    }
  }

  /** The loops of `submit_import` that find each imported movie's score
      (stopping at the first matching search result) and update the
      database when the score is truthy. */
  method ScoreImport(success: seq<Record>, fake: seq<Record>) returns (updates: seq<(JValue, JValue)>, err: Option<PyError>)
    ensures (updates, err) == ScoreUpdates(success, fake)
  {
    updates := [];
    var n := 0;
    assert success[n..] == success;
    assert updates + ScoreUpdates(success, fake).0 == ScoreUpdates(success, fake).0;
    while n < |success|
      invariant 0 <= n <= |success|
      invariant ScoreUpdates(success, fake).0 == updates + ScoreUpdates(success[n..], fake).0
      invariant ScoreUpdates(success, fake).1 == ScoreUpdates(success[n..], fake).1
    {
      var movie := success[n];
      assert success[n..][0] == movie && success[n..][1..] == success[n + 1..];
      var score := JNull;
      var j := 0;
      while j < |fake|
        invariant 0 <= j <= |fake|
        invariant FirstScore(fake, ImdbOf(movie)) == FirstScore(fake[j..], ImdbOf(movie))
        invariant score == JNull
      {
        assert fake[j..][0] == fake[j] && fake[j..][1..] == fake[j + 1..];
        if "imdbid" !in fake[j] || "imdbid" !in movie {
          assert ScoreUpdates(success[n..], fake) == ([], Some(KeyError("imdbid")));
          assert updates + [] == updates;
          return updates, Some(KeyError("imdbid"));
        }
        if fake[j]["imdbid"] == movie["imdbid"] {
          if "score" !in fake[j] {
            assert ScoreUpdates(success[n..], fake) == ([], Some(KeyError("score")));
            assert updates + [] == updates;
            return updates, Some(KeyError("score"));
          }
          score := fake[j]["score"];
          break;
        }
        j := j + 1;
      }
      assert FirstScore(fake, ImdbOf(movie)) == Returns(score);
      ghost var rest := ScoreUpdates(success[n + 1..], fake);
      if Truthy(score) {
        assert ScoreUpdates(success[n..], fake) == ([(movie["imdbid"], score)] + rest.0, rest.1);
        assert updates + ([(movie["imdbid"], score)] + rest.0) == (updates + [(movie["imdbid"], score)]) + rest.0;
        updates := updates + [(movie["imdbid"], score)];
      } else {
        assert ScoreUpdates(success[n..], fake) == rest;
      }
      n := n + 1;
    }
    assert success[n..] == [];
    assert updates + [] == updates;
    err := None;
  }
}
