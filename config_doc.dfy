/**
  The configuration document as the configuration store sees it.

  A document maps section names to sections, and a section maps keys to raw
  string values. Two documents matter: the one held by the store's parser
  object (ConfigParser's `_sections`) and the one on disk. They differ in
  one way: when the parser reads a section it has not seen before, it adds a
  bookkeeping key `__name__` holding the section's name, and when it writes
  a file it leaves every `__name__` key out.

  The live mirror (`core.CONFIG`) is built from the parser's document. It
  drops `__name__` and splits the values of the list-bearing sections on commas.
*/
module ConfigDoc {
  import Text

  type Section = map<string, string>
  type Doc = map<string, Section>

  /** The key ConfigParser adds to every section it reads. */
  const NameKey: string := "__name__"

  /** The sections whose values the mirror holds as comma-split lists. */
  const ListSections: set<string> := {"Indexers", "PotatoIndexers", "Quality"}

  /** Whether `d` has all three list sections. */
  predicate HasListSections<T>(d: map<string, T>)
  {
    "Indexers" in d && "PotatoIndexers" in d && "Quality" in d
  }

  /** A mirror value: a plain string, or the pieces of a comma-delimited one. */
  datatype Value = Str(s: string) | List(items: seq<string>)

  /** The live mirror: section -> key -> value. */
  type Mirror = map<string, map<string, Value>>

  // ---------------------------------------------------------------------
  // The parser's operations on documents
  // ---------------------------------------------------------------------

  /** `parser.read(file)`: each section of `f` is laid over the parser's
      section of the same name (the file's values win, the parser's other keys
      stay); a section the parser lacks is created with its `__name__` first. */
  function ReadInto(p: Doc, f: Doc): (r: Doc)
    ensures r.Keys == p.Keys + f.Keys
  {
    map s | s in p.Keys + f.Keys ::
      if s !in f then p[s]
      else if s in p then p[s] + f[s]
      else map[NameKey := s] + f[s]
  }

  /** `parser.set(s, k, v)` on an existing section. */
  function SetOption(d: Doc, s: string, k: string, v: string): (r: Doc)
    requires s in d
    ensures r.Keys == d.Keys
  {
    d[s := d[s][k := v]]
  }

  /** A section without its `__name__` key. */
  function WithoutName(sec: Section): (r: Section)
    ensures NameKey !in r
  {
    map k | k in sec && k != NameKey :: sec[k]
  }

  /** What `parser.write(file)` puts on disk: every section, without `__name__`. */
  function Written(p: Doc): (f: Doc)
    ensures f.Keys == p.Keys
    ensures NoNames(f)
  {
    map s | s in p :: WithoutName(p[s])
  }

  /** No section of `f` holds a `__name__` key: true of every file the parser writes. */
  predicate NoNames(f: Doc)
  {
    forall s :: s in f ==> NameKey !in f[s]
  }

  /** Every section and every real key of the parser's document is also in
      the file, so reading the file again brings in nothing stale. This holds
      for a fresh parser and right after the parser has written the file. */
  ghost predicate Covered(p: Doc, f: Doc)
  {
    forall s :: s in p ==> s in f && forall k :: k in p[s] && k != NameKey ==> k in f[s]
  }

  /** The document reached by laying the file `f` over the template `b`:
      a key in both keeps the file's value, a template-only key is added,
      a file-only key is kept, and nothing else appears. */
  function Merge(b: Doc, f: Doc): (r: Doc)
    ensures r.Keys == b.Keys + f.Keys
  {
    map s | s in b.Keys + f.Keys ::
      if s !in f then b[s] else if s in b then b[s] + f[s] else f[s]
  }

  // ---------------------------------------------------------------------
  // The mirror
  // ---------------------------------------------------------------------

  /** How the mirror holds the raw value `v` of a key in section `s`. */
  function Lift(s: string, v: string): Value
  {
    if s in ListSections then List(Text.Split(v, ',')) else Str(v)
  }

  /** The raw string a mirror value stands for. */
  function Raw(v: Value): string
  {
    match v
    case Str(s) => s
    case List(items) => if |items| == 0 then "" else Text.Join(items, ',')
  }

  /** The mirror built from the parser's document: every section, no
      `__name__` key, list sections split on commas. */
  function MirrorOf(p: Doc): Mirror
  {
    map s | s in p :: map k | k in p[s] && k != NameKey :: Lift(s, p[s][k])
  }

  // ---------------------------------------------------------------------
  // Lemmas
  // ---------------------------------------------------------------------

  /** Two documents with the same sections, section by section equal, are equal. */
  lemma DocEqual(d: Doc, e: Doc)
    requires d.Keys == e.Keys
    requires forall s :: s in d ==> d[s] == e[s]
    ensures d == e
  {
  }

  /** Two mirrors with the same sections, section by section equal, are equal. */
  lemma MirrorEqual(d: Mirror, e: Mirror)
    requires d.Keys == e.Keys
    requires forall s :: s in d ==> d[s] == e[s]
    ensures d == e
  {
  }

  /** Dropping `__name__` twice is dropping it once. */
  lemma WithoutNameTwice(sec: Section)
    ensures WithoutName(WithoutName(sec)) == WithoutName(sec)
  {
    assert WithoutName(WithoutName(sec)).Keys == WithoutName(sec).Keys;
  }

  /** Writing a document and writing it again changes nothing. */
  lemma WrittenIdempotent(p: Doc)
    ensures Written(Written(p)) == Written(p)
  {
    forall s | s in p
      ensures Written(Written(p))[s] == Written(p)[s]
    {
      WithoutNameTwice(p[s]);
    }
  }

  /** After the parser writes the file, it is covered by it. */
  lemma WrittenCovers(p: Doc)
    ensures Covered(p, Written(p))
  {
  }

  /** Laying a section over one whose real keys it already has leaves,
      `__name__` aside, only the upper section. */
  lemma OverlaySection(lower: Section, upper: Section)
    requires forall k :: k in lower && k != NameKey ==> k in upper
    ensures WithoutName(lower + upper) == WithoutName(upper)
  {
    assert WithoutName(lower + upper).Keys == WithoutName(upper).Keys;
  }

  /** One section of `ReadCovered`. */
  lemma ReadCoveredAt(p: Doc, f: Doc, s: string)
    requires s in f
    requires s in p ==> forall k :: k in p[s] && k != NameKey ==> k in f[s]
    ensures s in ReadInto(p, f) && WithoutName(ReadInto(p, f)[s]) == WithoutName(f[s])
  {
    var lower: Section := if s in p then p[s] else map[NameKey := s];
    assert ReadInto(p, f)[s] == lower + f[s];
    OverlaySection(lower, f[s]);
  }

  /** A parser covered by the file holds nothing the file does not: reading
      the file into it and writing it out again reproduces the file. */
  lemma ReadCovered(p: Doc, f: Doc)
    requires Covered(p, f)
    ensures Written(ReadInto(p, f)) == Written(f)
  {
    var w, wf := Written(ReadInto(p, f)), Written(f);
    forall s | s in f
      ensures w[s] == wf[s]
    {
      ReadCoveredAt(p, f, s);
    }
    DocEqual(w, wf);
  }

  /** Section replace, not merge: with the parser covered by the file `f`,
      reading `f`, replacing each section named in `data` and writing gives
      exactly `data`'s keys in those sections and `f`'s in all others. */
  lemma WriteDictEffect(p: Doc, f: Doc, data: Doc)
    requires Covered(p, f) && NoNames(f)
    ensures Written(ReadInto(p, f) + data).Keys == f.Keys + data.Keys
    ensures forall c :: c in data ==> Written(ReadInto(p, f) + data)[c] == WithoutName(data[c])
    ensures forall s :: s in f && s !in data ==> Written(ReadInto(p, f) + data)[s] == f[s]
  {
    var r := ReadInto(p, f);
    var w := Written(r + data);
    forall s | s in f && s !in data
      ensures w[s] == f[s]
    {
      ReadCoveredAt(p, f, s);
      WithoutNameAbsent(f[s]);
      assert (r + data)[s] == r[s];
    }
    forall c | c in data
      ensures w[c] == WithoutName(data[c])
    {
      assert (r + data)[c] == data[c];
    }
  }

  /** A section with no `__name__` key is its own written form. */
  lemma WithoutNameAbsent(sec: Section)
    requires NameKey !in sec
    ensures WithoutName(sec) == sec
  {
    assert WithoutName(sec).Keys == sec.Keys;
  }

  /** Setting a real key commutes with dropping `__name__`. */
  lemma WithoutNameSet(sec: Section, k: string, v: string)
    requires k != NameKey
    ensures WithoutName(sec[k := v]) == WithoutName(sec)[k := v]
  {
    assert WithoutName(sec[k := v]).Keys == WithoutName(sec)[k := v].Keys;
  }

  /** One key written into an existing section of a covered parser: the file
      changes at that key and nowhere else. */
  lemma WriteSingleEffect(p: Doc, f: Doc, c: string, k: string, v: string)
    requires Covered(p, f) && NoNames(f)
    requires c in f && k != NameKey
    ensures Written(SetOption(ReadInto(p, f), c, k, v)) == SetOption(f, c, k, v)
  {
    var r := ReadInto(p, f);
    var r' := SetOption(r, c, k, v);
    var w := Written(r');
    var g := SetOption(f, c, k, v);
    forall s | s in f
      ensures w[s] == g[s]
    {
      ReadCoveredAt(p, f, s);
      WithoutNameAbsent(f[s]);
      if s == c {
        WithoutNameSet(r[c], k, v);
      } else {
        assert r'[s] == r[s];
      }
    }
    DocEqual(w, g);
  }

  /** The section-level core of a merge: a parser section whose real keys
      the file has, under the template's section, under the file's. */
  lemma MergeSection(ps: Section, bs: Section, fs: Section)
    requires forall k :: k in ps && k != NameKey ==> k in fs
    ensures WithoutName(ps + bs + fs) == WithoutName(bs) + WithoutName(fs)
  {
    assert WithoutName(ps + bs + fs).Keys == (WithoutName(bs) + WithoutName(fs)).Keys;
  }

  /** One section of `MergeRead`, the parser and the file having it. */
  lemma MergeReadParser(p: Doc, b: Doc, f: Doc, s: string)
    requires s in p && s in f && forall k :: k in p[s] && k != NameKey ==> k in f[s]
    ensures var r := ReadInto(ReadInto(p, b), f);
            s in r && WithoutName(r[s]) == if s in b then WithoutName(b[s]) + WithoutName(f[s]) else WithoutName(f[s])
  {
    var q := ReadInto(p, b);
    var r := ReadInto(q, f);
    assert r[s] == q[s] + f[s];
    if s in b {
      assert q[s] == p[s] + b[s];
      MergeSection(p[s], b[s], f[s]);
    } else {
      assert q[s] == p[s];
      OverlaySection(p[s], f[s]);
    }
  }

  /** One section of `MergeRead`, the template having it and the parser not. */
  lemma MergeReadTemplate(p: Doc, b: Doc, f: Doc, s: string)
    requires s !in p && s in b
    ensures var r := ReadInto(ReadInto(p, b), f);
            s in r && WithoutName(r[s]) == if s in f then WithoutName(b[s]) + WithoutName(f[s]) else WithoutName(b[s])
  {
    var q := ReadInto(p, b);
    var r := ReadInto(q, f);
    assert q[s] == map[NameKey := s] + b[s];
    if s in f {
      assert r[s] == q[s] + f[s];
      MergeSection(map[NameKey := s], b[s], f[s]);
    } else {
      assert r[s] == q[s];
      OverlaySection(map[NameKey := s], b[s]);
    }
  }

  /** One section of `MergeRead`, only the file having it. */
  lemma MergeReadFile(p: Doc, b: Doc, f: Doc, s: string)
    requires s !in p && s !in b && s in f
    ensures var r := ReadInto(ReadInto(p, b), f);
            s in r && WithoutName(r[s]) == WithoutName(f[s])
  {
    var r := ReadInto(ReadInto(p, b), f);
    assert r[s] == map[NameKey := s] + f[s];
    OverlaySection(map[NameKey := s], f[s]);
  }

  /** One section of `MergeRead`. */
  lemma MergeReadAt(p: Doc, b: Doc, f: Doc, s: string)
    requires s in p ==> s in f && forall k :: k in p[s] && k != NameKey ==> k in f[s]
    requires s in b || s in f
    ensures var r := ReadInto(ReadInto(p, b), f);
      var m := Merge(Written(b), Written(f));
      s in r && s in m && Written(r)[s] == m[s]
  {
    var r := ReadInto(ReadInto(p, b), f);
    assert Written(r)[s] == WithoutName(r[s]);
    if s in p {
      MergeReadParser(p, b, f, s);
    } else if s in b {
      MergeReadTemplate(p, b, f, s);
    } else {
      MergeReadFile(p, b, f, s);
    }
  }

  /** `read([base, file])` on a covered parser, then write: the template
      under the file, as `Merge` describes. */
  lemma MergeRead(p: Doc, b: Doc, f: Doc)
    requires Covered(p, f)
    ensures Written(ReadInto(ReadInto(p, b), f)) == Merge(Written(b), Written(f))
  {
    var w := Written(ReadInto(ReadInto(p, b), f));
    var m := Merge(Written(b), Written(f));
    MergeReadKeys(p, b, f);
    forall s | s in w
      ensures s in m && w[s] == m[s]
    {
      MergeReadAt(p, b, f, s);
    }
    DocEqual(w, m);
  }

  /** A covered parser adds no section to the template and the file. */
  lemma MergeReadKeys(p: Doc, b: Doc, f: Doc)
    requires Covered(p, f)
    ensures ReadInto(ReadInto(p, b), f).Keys == b.Keys + f.Keys
  {
    assert p.Keys <= f.Keys;
  }

  /** A file that already has every section and key of the template is
      left as it is by the merge. */
  lemma MergeAbsorbs(b: Doc, f: Doc)
    requires forall s :: s in b ==> s in f && b[s].Keys <= f[s].Keys
    ensures Merge(b, f) == f
  {
    var m := Merge(b, f);
    forall s | s in f
      ensures m[s] == f[s]
    {
      assert m[s].Keys == f[s].Keys;
    }
  }

  /** Merging is idempotent: laying the file over the template a second time
      changes nothing, whatever the parser held before the first merge. */
  lemma {:induction false} MergeTwice(p: Doc, b: Doc, f: Doc)
    ensures var f1 := Written(ReadInto(ReadInto(p, b), f));
            var p1 := ReadInto(ReadInto(p, b), f);
            Written(ReadInto(ReadInto(p1, b), f1)) == f1
  {
    var q := ReadInto(p, b);
    var p1 := ReadInto(q, f);
    var f1 := Written(p1);
    WrittenCovers(p1);
    MergeRead(p1, b, f1);
    WrittenIdempotent(p1);
    var wb := Written(b);
    forall s | s in wb
      ensures s in f1 && wb[s].Keys <= f1[s].Keys
    {
      assert q[s].Keys >= b[s].Keys;
      assert p1[s].Keys >= q[s].Keys;
    }
    MergeAbsorbs(wb, f1);
  }

  /** What the merge keeps: a key in both keeps the file's value, a
      template-only key is added with the template's value, a file-only key is
      kept, and no key comes from anywhere else. */
  lemma MergeMeaning(b: Doc, f: Doc)
    ensures var r := Merge(b, f);
      && r.Keys == b.Keys + f.Keys
      && (forall s, k :: s in f && k in f[s] ==> k in r[s] && r[s][k] == f[s][k])
      && (forall s, k :: s in b && k in b[s] && (s !in f || k !in f[s]) ==> k in r[s] && r[s][k] == b[s][k])
      && (forall s, k :: s in r && k in r[s] ==> (s in f && k in f[s]) || (s in b && k in b[s]))
  {
  }

  /** Merging the template into its own merge gives the same document. */
  lemma MergeIdempotent(b: Doc, f: Doc)
    ensures Merge(b, Merge(b, f)) == Merge(b, f)
  {
    var m := Merge(b, f);
    forall s | s in m
      ensures Merge(b, m)[s] == m[s]
    {
      assert Merge(b, m)[s].Keys == m[s].Keys;
    }
  }

  /** The mirror depends only on what the parser would write. */
  lemma MirrorOfWritten(p: Doc)
    ensures MirrorOf(Written(p)) == MirrorOf(p)
  {
    forall s | s in p
      ensures MirrorOf(Written(p))[s] == MirrorOf(p)[s]
    {
      assert MirrorOf(Written(p))[s].Keys == MirrorOf(p)[s].Keys;
    }
  }

  /** What the mirror holds: the document's sections and keys less
      `__name__`, comma-split lists in exactly the three list sections, plain
      strings elsewhere, and in every case the raw value recoverable. */
  lemma {:induction false} MirrorShape(p: Doc)
    ensures MirrorOf(p).Keys == p.Keys
    ensures forall s :: s in p ==> MirrorOf(p)[s].Keys == p[s].Keys - {NameKey}
    ensures forall s, k :: s in p && k in MirrorOf(p)[s] ==>
              (MirrorOf(p)[s][k].List? <==> s in ListSections)
              && Raw(MirrorOf(p)[s][k]) == p[s][k]
  {
    forall s, k | s in p && k in MirrorOf(p)[s]
      ensures (MirrorOf(p)[s][k].List? <==> s in ListSections)
      ensures Raw(MirrorOf(p)[s][k]) == p[s][k]
    {
      Text.JoinSplit(p[s][k], ',');
    }
  }
}
