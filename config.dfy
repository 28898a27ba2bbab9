/**
  The configuration store: a `Config` object owns a parser (whose document
  persists between calls and accumulates whatever it reads), the
  configuration file on disk and the read-only template it was first copied
  from, and it refreshes the process-wide mirror held by `Core`.
*/
module ConfigStore {
  import opened ConfigDoc
  import opened JsonValues
  import Text

  /** Whether `add_section` refuses the name. */
  predicate IsDefaultName(s: string)
  {
    Text.Lower(s) == "default"
  }

  /** Whether any section named in `data` is one `add_section` refuses. */
  predicate HasDefaultName(data: Doc)
  {
    exists c :: c in data && IsDefaultName(c)
  }

  /** The document after `new_config` has set its five random fields. */
  function Randomized(d: Doc, searchHr: nat, searchMin: nat, updateHr: nat, updateMin: nat, key: nat): (r: Doc)
    requires "Search" in d && "Server" in d
    ensures r.Keys == d.Keys
  {
    var d1 := SetOption(d, "Search", "searchtimehr", Text.TwoDigits(searchHr));
    var d2 := SetOption(d1, "Search", "searchtimemin", Text.TwoDigits(searchMin));
    var d3 := SetOption(d2, "Server", "installupdatehr", Text.TwoDigits(updateHr));
    var d4 := SetOption(d3, "Server", "installupdatemin", Text.TwoDigits(updateMin));
    SetOption(d4, "Server", "apikey", Text.Hex06(key))
  }

  /** The `core` module's global state: `core.CONFIG`, the live mirror. */
  class Core {
    var mirror: Mirror

    constructor(mirror: Mirror)
      ensures this.mirror == mirror
    {
      this.mirror := mirror;
    }
  }

  class Config {
    /** The parser's sections (`self.config`). */
    var parser: Doc
    /** The configuration file on disk (`self.file`). */
    var file: Doc
    /** The shipped template (`self.base_file`), never written. */
    const base: Doc
    /** The process-wide module holding the mirror. */
    const core: Core

    /** The parser holds nothing the file lacks and the file has no parser
        bookkeeping: true of a fresh object over a file the parser wrote, and
        after every operation that writes the file. */
    ghost predicate Synced()
      reads this
    {
      Covered(parser, file) && NoNames(file)
    }

    constructor(core: Core, file: Doc, base: Doc)
      ensures this.core == core && this.file == file && this.base == base
      ensures parser == map[]
      ensures NoNames(file) ==> Synced()
    {
      this.core := core;
      this.file := file;
      this.base := base;
      parser := map[];
    }

    /** Copies the template over the file, reads it, sets the two schedule
        times and the API key from the given random numbers, and writes the
        file. The mirror is not refreshed. */
    method NewConfig(searchHr: nat, searchMin: nat, updateHr: nat, updateMin: nat, key: nat)
      returns (r: Outcome<string>)
      requires searchHr <= 23 && updateHr <= 23
      requires searchMin <= 59 && updateMin <= 59
      requires key < Text.Pow(16, 32)
      modifies this
      ensures r.Returns? <==> ("Search" in old(parser) || "Search" in base) && ("Server" in old(parser) || "Server" in base)
      ensures r.Raises? ==> file == base
      ensures r.Raises? && !("Search" in old(parser) || "Search" in base) ==> parser == ReadInto(old(parser), base)
      ensures r.Raises? && ("Search" in old(parser) || "Search" in base) ==>
                parser == SetOption(SetOption(ReadInto(old(parser), base), "Search", "searchtimehr", Text.TwoDigits(searchHr)),
                                    "Search", "searchtimemin", Text.TwoDigits(searchMin))
      ensures r.Raises? ==> r.error == NoSectionError(if "Search" in old(parser) || "Search" in base then "Server" else "Search")
      ensures r.Returns? ==> r.value == "Config Saved"
      ensures r.Returns? ==> parser == Randomized(ReadInto(old(parser), base), searchHr, searchMin, updateHr, updateMin, key)
      ensures r.Returns? ==> file == Written(parser) && Synced()
      ensures r.Returns? && old(Covered(parser, base)) && NoNames(base) ==>
                file == Randomized(base, searchHr, searchMin, updateHr, updateMin, key)
      ensures core.mirror == old(core.mirror)
    {
      assert core as object != this;
      file := base;
      parser := ReadInto(parser, file);
      ghost var read := parser;
      var e := Set("Search", "searchtimehr", Text.TwoDigits(searchHr));
      if e.Raises? {
        return Raises(e.error);
      }
      e := Set("Search", "searchtimemin", Text.TwoDigits(searchMin));
      ghost var searched := parser;
      e := Set("Server", "installupdatehr", Text.TwoDigits(updateHr));
      if e.Raises? {
        return Raises(e.error);
      }
      e := Set("Server", "installupdatemin", Text.TwoDigits(updateMin));
      e := Set("Server", "apikey", Text.Hex06(key));
      file := Written(parser);
      WrittenCovers(parser);
      if Covered(old(parser), base) && NoNames(base) {
        RandomizedWritten(old(parser), base, searchHr, searchMin, updateHr, updateMin, key);
      }
      r := Returns("Config Saved");
    }

    /** `parser.set(section, key, value)`: raises `NoSectionError` when the
        parser has no such section. */
    method Set(section: string, key: string, value: string) returns (r: Outcome<()>)
      modifies this
      ensures section in old(parser) ==> r.Returns? && parser == SetOption(old(parser), section, key, value)
      ensures section !in old(parser) ==> r == Raises(NoSectionError(section)) && parser == old(parser)
      ensures file == old(file)
    {
      if section !in parser {
        return Raises(NoSectionError(section));
      }
      parser := SetOption(parser, section, key, value);
      r := Returns(());
    }

    /** Replaces each section named in `data` by `data`'s keys and values
        (dropping its old keys), writes the file, then refreshes the mirror. */
    method WriteDict(data: Doc) returns (r: Outcome<()>)
      modifies this, core
      ensures HasDefaultName(data) ==>
                r.Raises? && r.error.ValueError? && r.error.arg in data && IsDefaultName(r.error.arg)
                && file == old(file) && core.mirror == old(core.mirror)
      ensures r.Raises? && r.error.ValueError? ==>
                exists done :: StoppedAt(parser, ReadInto(old(parser), old(file)), data, done, r.error.arg)
      ensures !HasDefaultName(data) ==>
                parser == ReadInto(old(parser), old(file)) + data && file == Written(parser) && Synced()
      ensures !HasDefaultName(data) ==> (r.Returns? <==> HasListSections(parser))
      ensures !HasDefaultName(data) && r.Raises? ==> r.error.KeyError? && core.mirror == old(core.mirror)
      ensures r.Returns? ==> core.mirror == MirrorOf(parser) && core.mirror == MirrorOf(file)
      ensures !HasDefaultName(data) && old(Synced()) ==>
                && file.Keys == old(file).Keys + data.Keys
                && (forall c :: c in data ==> file[c] == WithoutName(data[c]))
                && (forall s :: s in old(file) && s !in data ==> file[s] == old(file)[s])
    {
      parser := ReadInto(parser, file);
      r := ReplaceSections(data);
      if r.Raises? {
        return;
      }
      file := Written(parser);
      WrittenCovers(parser);
      if old(Synced()) {
        WriteDictEffect(old(parser), old(file), data);
      }
      r := Stash();
      if r.Returns? {
        MirrorOfWritten(parser);
      }
    }

    /** For each section of `data`: removes it from the parser, refuses a
        name that lowers to `default`, adds it empty and sets its keys. */
    method ReplaceSections(data: Doc) returns (r: Outcome<()>)
      modifies this
      ensures file == old(file) && core.mirror == old(core.mirror)
      ensures HasDefaultName(data) ==>
                r.Raises? && r.error.ValueError? && r.error.arg in data && IsDefaultName(r.error.arg)
      ensures r.Raises? ==> r.error.ValueError? && exists done :: StoppedAt(parser, old(parser), data, done, r.error.arg)
      ensures !HasDefaultName(data) ==> r.Returns? && parser == old(parser) + data
    {
      var todo := data.Keys;
      while todo != {}
        invariant todo <= data.Keys
        invariant forall c :: c in data && c !in todo ==> !IsDefaultName(c)
        invariant Replaced(parser, old(parser), data, data.Keys - todo)
        invariant file == old(file)
        decreases todo
      {
        var cat :| cat in todo;
        ghost var before := parser;
        r := ReplaceSection(cat, data[cat]);
        if r.Raises? {
          StopAt(before, old(parser), data, data.Keys - todo, cat);
          return;
        }
        todo := todo - {cat};
      }
      assert !HasDefaultName(data);
      ReplacedAll(parser, old(parser), data);
      r := Returns(());
    }

    /** `remove_section`, `add_section` (which refuses `default` in any
        case) and `set` for each key: section `cat` becomes `sec`. */
    method ReplaceSection(cat: string, sec: Section) returns (r: Outcome<()>)
      modifies this
      ensures file == old(file)
      ensures r.Raises? <==> IsDefaultName(cat)
      ensures r.Raises? ==> r == Raises(ValueError(cat)) && parser == old(parser) - {cat}
      ensures r.Returns? ==> parser == old(parser)[cat := sec]
    {
      parser := parser - {cat};
      if IsDefaultName(cat) {
        return Raises(ValueError(cat));
      }
      parser := parser[cat := map[]];
      SetKeys(cat, sec);
      assert parser[cat] == sec;
      r := Returns(());
    }

    /** `for k, v in sec.items(): config.set(cat, k, v)` on an existing section. */
    method SetKeys(cat: string, sec: Section)
      requires cat in parser
      modifies this
      ensures parser == old(parser)[cat := old(parser)[cat] + sec]
      ensures file == old(file)
    {
      var keys := sec.Keys;
      while keys != {}
        invariant keys <= sec.Keys
        invariant cat in parser && parser.Keys == old(parser).Keys && file == old(file)
        invariant forall s :: s in parser && s != cat ==> parser[s] == old(parser)[s]
        invariant parser[cat] == old(parser)[cat] + SetSoFar(sec, keys)
        decreases keys
      {
        var k :| k in keys;
        SetStep(old(parser)[cat], sec, keys, k);
        parser := SetOption(parser, cat, k, sec[k]);
        keys := keys - {k};
      }
      assert SetSoFar(sec, {}) == sec;
      DocEqual(parser, old(parser)[cat := old(parser)[cat] + sec]);
    }

    /** Sets one key in an existing section: in the parser, in the mirror
        (as a plain string, even in a list section) and then in the file. */
    method WriteSingle(category: string, key: string, value: string) returns (r: Outcome<()>)
      modifies this, core
      ensures category !in ReadInto(old(parser), old(file)) ==>
                r == Raises(NoSectionError(category)) && parser == ReadInto(old(parser), old(file))
      ensures category in ReadInto(old(parser), old(file)) ==>
                parser == SetOption(ReadInto(old(parser), old(file)), category, key, value)
      ensures category in ReadInto(old(parser), old(file)) && category !in old(core.mirror) ==>
                r == Raises(KeyError(category))
      ensures r.Raises? ==> file == old(file) && core.mirror == old(core.mirror)
      ensures r.Returns? <==> category in ReadInto(old(parser), old(file)) && category in old(core.mirror)
      ensures r.Returns? ==> file == Written(parser) && Synced()
      ensures r.Returns? ==> core.mirror == old(core.mirror)[category := old(core.mirror)[category][key := Str(value)]]
      ensures r.Returns? && old(Synced()) && key != NameKey ==> file == SetOption(old(file), category, key, value)
    {
      assert core as object != this;
      parser := ReadInto(parser, file);
      r := Set(category, key, value);
      if r.Raises? {
        return;
      }
      if category !in core.mirror {
        return Raises(KeyError(category));
      }
      core.mirror := core.mirror[category := core.mirror[category][key := Str(value)]];
      file := Written(parser);
      WrittenCovers(parser);
      if old(Synced()) && key != NameKey {
        WriteSingleEffect(old(parser), old(file), category, key, value);
      }
      r := Returns(());
    }

    /** Reads the template and then the file into the parser and writes the
        result back to the file: the file's values win, template-only keys
        are added, file-only keys stay. The mirror is not refreshed. */
    method MergeNewOptions()
      modifies this
      ensures parser == ReadInto(ReadInto(old(parser), base), old(file))
      ensures file == Written(parser) && Synced()
      ensures old(Synced()) ==> file == Merge(Written(base), old(file))
      ensures core.mirror == old(core.mirror)
    {
      parser := ReadInto(ReadInto(parser, base), file);
      file := Written(parser);
      WrittenCovers(parser);
      if old(Synced()) {
        MergeRead(old(parser), base, old(file));
        NoNamesWritten(old(file));
      }
    }

    /** Rebuilds the mirror from the parser: copies every section, removes
        each `__name__` key, splits every value of the three list sections on
        commas, and only then replaces the whole mirror. A missing list
        section raises `KeyError` and leaves the mirror as it was. */
    method Stash() returns (r: Outcome<()>)
      modifies core
      ensures "Indexers" !in parser ==> r == Raises(KeyError("Indexers"))
      ensures "Indexers" in parser && "PotatoIndexers" !in parser ==> r == Raises(KeyError("PotatoIndexers"))
      ensures "Indexers" in parser && "PotatoIndexers" in parser && "Quality" !in parser ==>
                r == Raises(KeyError("Quality"))
      ensures r.Returns? <==> HasListSections(parser)
      ensures r.Returns? ==> core.mirror == MirrorOf(parser)
      ensures r.Raises? ==> core.mirror == old(core.mirror)
    {
      var d := StripNames(parser);
      if "Indexers" !in d {
        return Raises(KeyError("Indexers"));
      }
      var indexers := SplitValues(d["Indexers"]);
      if "PotatoIndexers" !in d {
        return Raises(KeyError("PotatoIndexers"));
      }
      var potato := SplitValues(d["PotatoIndexers"]);
      if "Quality" !in d {
        return Raises(KeyError("Quality"));
      }
      var quality := SplitValues(d["Quality"]);
      StashedMirror(parser, d, indexers, potato, quality);
      d := d["Indexers" := indexers]["PotatoIndexers" := potato]["Quality" := quality];
      core.mirror := d;
      r := Returns(());
    }
  }

  /** The sections in `done` hold `data`'s, every other section is as before. */
  ghost predicate Replaced(p: Doc, before: Doc, data: Doc, done: set<string>)
  {
    && done <= data.Keys
    && p.Keys == before.Keys + done
    && forall s :: s in p ==> p[s] == if s in done then data[s] else before[s]
  }

  /** The sections in `done` hold `data`'s, `failed` (refused by
      `add_section` after `remove_section` took it out) is gone, and every
      other section is as before. */
  function PartlyReplaced(before: Doc, data: Doc, done: set<string>, failed: string): Doc
    requires done <= data.Keys
  {
    map s | s in before.Keys + done && s != failed :: if s in done then data[s] else before[s]
  }

  /** The parser state when the section loop stops at the refused section
      `failed`, having replaced the sections in `done` (none of them refused). */
  ghost predicate StoppedAt(p: Doc, before: Doc, data: Doc, done: set<string>, failed: string)
  {
    && done <= data.Keys && failed in data && failed !in done
    && (forall c :: c in done ==> !IsDefaultName(c))
    && p == PartlyReplaced(before, data, done, failed)
  }

  /** Removing the refused section from a partly replaced parser. */
  lemma StopAt(p: Doc, before: Doc, data: Doc, done: set<string>, failed: string)
    requires Replaced(p, before, data, done) && failed in data && failed !in done
    requires forall c :: c in done ==> !IsDefaultName(c)
    ensures StoppedAt(p - {failed}, before, data, done, failed)
  {
    DocEqual(p - {failed}, PartlyReplaced(before, data, done, failed));
  }

  lemma ReplacedAll(p: Doc, before: Doc, data: Doc)
    requires Replaced(p, before, data, data.Keys)
    ensures p == before + data
  {
    DocEqual(p, before + data);
  }

  /** The keys of `sec` already set when `todo` remain. */
  function SetSoFar(sec: Section, todo: set<string>): Section
  {
    map k | k in sec && k !in todo :: sec[k]
  }

  /** Setting one more key of `sec` extends what has been set. */
  lemma SetStep(lower: Section, sec: Section, todo: set<string>, k: string)
    requires k in todo && k in sec
    ensures (lower + SetSoFar(sec, todo))[k := sec[k]] == lower + SetSoFar(sec, todo - {k})
  {
    var l, r := (lower + SetSoFar(sec, todo))[k := sec[k]], lower + SetSoFar(sec, todo - {k});
    assert l.Keys == r.Keys;
  }

  /** The five fields `new_config` writes: two-digit hours below 24, two-digit
      minutes below 60, and an API key of 6 to 32 lower-case hex digits, each
      reading back as the random number it came from. */
  lemma RandomFields(d: Doc, searchHr: nat, searchMin: nat, updateHr: nat, updateMin: nat, key: nat)
    requires "Search" in d && "Server" in d
    requires searchHr <= 23 && updateHr <= 23
    requires searchMin <= 59 && updateMin <= 59
    requires key < Text.Pow(16, 32)
    ensures var f := Written(Randomized(d, searchHr, searchMin, updateHr, updateMin, key));
      && "Search" in f && "Server" in f
      && "searchtimehr" in f["Search"] && "searchtimemin" in f["Search"]
      && "installupdatehr" in f["Server"] && "installupdatemin" in f["Server"] && "apikey" in f["Server"]
      && IsClock(f["Search"]["searchtimehr"], searchHr) && IsClock(f["Search"]["searchtimemin"], searchMin)
      && IsClock(f["Server"]["installupdatehr"], updateHr) && IsClock(f["Server"]["installupdatemin"], updateMin)
      && 6 <= |f["Server"]["apikey"]| <= 32 && Text.AllDigits(f["Server"]["apikey"], 16)
      && Text.ValueOf(f["Server"]["apikey"], 16) == key
  {
    var r := Randomized(d, searchHr, searchMin, updateHr, updateMin, key);
    assert r["Search"]["searchtimehr"] == Text.TwoDigits(searchHr);
    assert r["Search"]["searchtimemin"] == Text.TwoDigits(searchMin);
    assert r["Server"]["installupdatehr"] == Text.TwoDigits(updateHr);
    assert r["Server"]["installupdatemin"] == Text.TwoDigits(updateMin);
    assert r["Server"]["apikey"] == Text.Hex06(key);
    Text.TwoDigitsShape(searchHr);
    Text.TwoDigitsShape(searchMin);
    Text.TwoDigitsShape(updateHr);
    Text.TwoDigitsShape(updateMin);
    Text.Hex06Shape(key);
  }

  /** A two-character decimal field holding `n`. */
  predicate IsClock(s: string, n: nat)
  {
    |s| == 2 && Text.AllDigits(s, 10) && Text.ValueOf(s, 10) == n
  }

  /** The copy of a parser section `Stash` starts from, as plain strings. */
  function AsStrings(sec: Section): map<string, Value>
  {
    map k | k in sec :: Str(sec[k])
  }

  /** A parser section as plain strings, without `__name__`. */
  function Plain(sec: Section): map<string, Value>
  {
    map k | k in sec && k != NameKey :: Str(sec[k])
  }

  /** Whether `d` is the parser's document `p` as plain strings without `__name__`. */
  ghost predicate PlainOf(p: Doc, d: Mirror)
  {
    d.Keys == p.Keys && forall s :: s in d ==> d[s] == Plain(p[s])
  }

  lemma StripSection(sec: Section)
    ensures AsStrings(sec) - {NameKey} == Plain(sec)
    ensures NameKey !in AsStrings(sec) ==> AsStrings(sec) == Plain(sec)
  {
  }

  /** `for i in d: if '__name__' in d[i]: del d[i]['__name__']` on a copy of
      the parser's sections. */
  method StripNames(p: Doc) returns (d: Mirror)
    ensures PlainOf(p, d)
  {
    d := map s | s in p :: AsStrings(p[s]);
    var todo := d.Keys;
    while todo != {}
      invariant todo <= d.Keys && d.Keys == p.Keys
      invariant forall s :: s in d ==> d[s] == if s in todo then AsStrings(p[s]) else Plain(p[s])
      decreases todo
    {
      var s :| s in todo;
      StripSection(p[s]);
      if NameKey in d[s] {
        d := d[s := d[s] - {NameKey}];
      }
      todo := todo - {s};
    }
  }

  /** The three list sections split, the plain copy is the mirror. */
  lemma StashedMirror(p: Doc, d: Mirror, indexers: map<string, Value>, potato: map<string, Value>,
                      quality: map<string, Value>)
    requires PlainOf(p, d) && HasListSections(d)
    requires Splits(d["Indexers"], indexers)
    requires Splits(d["PotatoIndexers"], potato)
    requires Splits(d["Quality"], quality)
    ensures d["Indexers" := indexers]["PotatoIndexers" := potato]["Quality" := quality] == MirrorOf(p)
  {
    var m := d["Indexers" := indexers]["PotatoIndexers" := potato]["Quality" := quality];
    var e := MirrorOf(p);
    forall s | s in m
      ensures s in e && m[s] == e[s]
    {
      StashedAt(p, d, indexers, potato, quality, s);
    }
    var d1 := d["Indexers" := indexers];
    var d2 := d1["PotatoIndexers" := potato];
    UpdateKeys(d, "Indexers", indexers);
    UpdateKeys(d1, "PotatoIndexers", potato);
    UpdateKeys(d2, "Quality", quality);
    MirrorKeys(p);
    MirrorEqual(m, e);
  }

  /** Updating a present key keeps the key set. */
  lemma UpdateKeys(d: Mirror, s: string, sec: map<string, Value>)
    requires s in d
    ensures d[s := sec].Keys == d.Keys
  {
  }

  /** The mirror has the document's sections. */
  lemma MirrorKeys(p: Doc)
    ensures MirrorOf(p).Keys == p.Keys
  {
  }

  /** One section of `StashedMirror`. */
  lemma StashedAt(p: Doc, d: Mirror, indexers: map<string, Value>, potato: map<string, Value>,
                  quality: map<string, Value>, s: string)
    requires PlainOf(p, d) && HasListSections(d) && s in d
    requires Splits(d["Indexers"], indexers)
    requires Splits(d["PotatoIndexers"], potato)
    requires Splits(d["Quality"], quality)
    ensures var m := d["Indexers" := indexers]["PotatoIndexers" := potato]["Quality" := quality];
            s in MirrorOf(p) && m[s] == MirrorOf(p)[s]
  {
    if s == "Quality" {
      ListSection(p, s, quality);
    } else if s == "PotatoIndexers" {
      ListSection(p, s, potato);
    } else if s == "Indexers" {
      ListSection(p, s, indexers);
    } else {
      PlainSection(p, s);
    }
  }

  /** `out` is `sec` with every value split on commas. */
  ghost predicate Splits(sec: map<string, Value>, out: map<string, Value>)
  {
    && (forall k :: k in sec ==> sec[k].Str?)
    && out.Keys == sec.Keys
    && forall k :: k in sec ==> out[k] == List(Text.Split(sec[k].s, ','))
  }

  /** A list section of the mirror is the plain section split on commas. */
  lemma ListSection(p: Doc, s: string, out: map<string, Value>)
    requires s in p && s in ListSections
    requires Splits(Plain(p[s]), out)
    ensures s in MirrorOf(p) && out == MirrorOf(p)[s]
  {
    assert out.Keys == MirrorOf(p)[s].Keys;
  }

  /** Any other section of the mirror is the plain section. */
  lemma PlainSection(p: Doc, s: string)
    requires s in p && s !in ListSections
    ensures s in MirrorOf(p) && Plain(p[s]) == MirrorOf(p)[s]
  {
    assert Plain(p[s]).Keys == MirrorOf(p)[s].Keys;
  }

  /** `for k, v in sec.iteritems(): sec[k] = v.split(',')` on a section of
      plain strings. */
  method SplitValues(sec: map<string, Value>) returns (out: map<string, Value>)
    requires forall k :: k in sec ==> sec[k].Str?
    ensures out.Keys == sec.Keys
    ensures forall k :: k in sec ==> out[k] == List(Text.Split(sec[k].s, ','))
    ensures Splits(sec, out)
  {
    out := sec;
    var todo := sec.Keys;
    while todo != {}
      invariant todo <= sec.Keys && out.Keys == sec.Keys
      invariant forall k :: k in sec ==> out[k] == if k in todo then sec[k] else List(Text.Split(sec[k].s, ','))
      decreases todo
    {
      var k :| k in todo;
      out := out[k := List(Text.Split(out[k].s, ','))];
      todo := todo - {k};
    }
  }

  /** A file with no `__name__` keys is its own written form. */
  lemma NoNamesWritten(f: Doc)
    requires NoNames(f)
    ensures Written(f) == f
  {
    forall s | s in f
      ensures Written(f)[s] == f[s]
    {
      WithoutNameAbsent(f[s]);
    }
  }

  /** With a parser covered by the template, `new_config` writes the
      template with exactly the five random fields set. */
  lemma RandomizedWritten(p: Doc, b: Doc, searchHr: nat, searchMin: nat, updateHr: nat, updateMin: nat, key: nat)
    requires Covered(p, b) && NoNames(b)
    requires "Search" in b && "Server" in b
    ensures Written(Randomized(ReadInto(p, b), searchHr, searchMin, updateHr, updateMin, key))
            == Randomized(b, searchHr, searchMin, updateHr, updateMin, key)
  {
    var r := ReadInto(p, b);
    var hr, mn := Text.TwoDigits(searchHr), Text.TwoDigits(searchMin);
    var uhr, umn, ak := Text.TwoDigits(updateHr), Text.TwoDigits(updateMin), Text.Hex06(key);
    var r1 := SetOption(r, "Search", "searchtimehr", hr);
    var r2 := SetOption(r1, "Search", "searchtimemin", mn);
    var r3 := SetOption(r2, "Server", "installupdatehr", uhr);
    var r4 := SetOption(r3, "Server", "installupdatemin", umn);
    var b1 := SetOption(b, "Search", "searchtimehr", hr);
    var b2 := SetOption(b1, "Search", "searchtimemin", mn);
    var b3 := SetOption(b2, "Server", "installupdatehr", uhr);
    var b4 := SetOption(b3, "Server", "installupdatemin", umn);
    WriteSingleEffect(p, b, "Search", "searchtimehr", hr);
    assert Written(r1) == b1;
    WritePreservesSet(r1, b1, "Search", "searchtimemin", mn);
    WritePreservesSet(r2, b2, "Server", "installupdatehr", uhr);
    WritePreservesSet(r3, b3, "Server", "installupdatemin", umn);
    WritePreservesSet(r4, b4, "Server", "apikey", ak);
  }

  /** Setting a real key before writing is setting it after. */
  lemma WritePreservesSet(r: Doc, b: Doc, c: string, k: string, v: string)
    requires Written(r) == b && c in r && k != NameKey
    ensures Written(SetOption(r, c, k, v)) == SetOption(b, c, k, v)
  {
    WithoutNameSet(r[c], k, v);
    var w := Written(SetOption(r, c, k, v));
    DocEqual(w, SetOption(b, c, k, v));
  }
}
