/** The v2 index: sources streamed in batches into a table keyed by digest, its lookup and the
    deep part of its verification. None stands for GoodwareImportError. */
module GoodwareIndex {
  import opened Text
  import opened Normalization
  import opened UpsertTable
  import J = JsonScanner
  import JS = JsonStream
  import SR = StreamingReader
  import Utf8

  /** What reading one source file gives. */
  datatype Source = Source(kind: Kind, outcome: JS.Outcome)

  /** A usable entry: the normalised feature and its count. */
  datatype Feature = Feature(kind: Kind, value: Str, count: int)

  datatype Entry = Bad | Sentinel(count: int) | Good(f: Feature)

  /** One pair of a source, as the loop of `_aggregate_v2` treats it. */
  function ReadEntry(env: Env, kind: Kind, item: JS.Item): (r: Entry)
    ensures r.Good? ==> 1 <= r.f.count <= JS.MAX_SQLITE_COUNT && Utf8.Encodable(r.f.value) && r.f.kind == kind
  {
    if !JS.ValidCount(item.1) then Bad
    else if (kind.KString? || kind.KImphash?) && item.0 == [] then Sentinel(item.1.n)
    else
      match Normalize(env, kind, item.0)
      case None => Bad
      case Some(v) => if Utf8.Encodable(v) then Good(Feature(kind, v, item.1.n)) else Bad
  }

  predicate Readable(env: Env, s: Source) {
    s.outcome.ok && forall i :: 0 <= i < |s.outcome.items| ==> ReadEntry(env, s.kind, s.outcome.items[i]) != Bad
  }

  /** The usable entries among the pairs, in order. */
  function Features(env: Env, kind: Kind, items: seq<JS.Item>): (r: seq<Feature>)
    ensures forall i :: 0 <= i < |r| ==> 1 <= r[i].count <= JS.MAX_SQLITE_COUNT && Utf8.Encodable(r[i].value)
  {
    if items == [] then []
    else
      var last := |items| - 1;
      var e := ReadEntry(env, kind, items[last]);
      Features(env, kind, items[..last]) + (if e.Good? then [e.f] else [])
  }

  /** `occurrence_sum` of the metadata of a source: sentinels included. */
  function SourceSum(items: seq<JS.Item>): int {
    if items == [] then 0
    else
      var last := |items| - 1;
      SourceSum(items[..last]) + (if items[last].1.JInt? then items[last].1.n else 0)
  }

  function SentinelSum(env: Env, kind: Kind, items: seq<JS.Item>): int {
    if items == [] then 0
    else
      var last := |items| - 1;
      var e := ReadEntry(env, kind, items[last]);
      SentinelSum(env, kind, items[..last]) + (if e.Sentinel? then e.count else 0)
  }

  function CountSum(fs: seq<Feature>): int {
    if fs == [] then 0 else CountSum(fs[..|fs| - 1]) + fs[|fs| - 1].count
  }

  function AllFeatures(env: Env, sources: seq<Source>): (r: seq<Feature>)
    ensures forall i :: 0 <= i < |r| ==> 1 <= r[i].count <= JS.MAX_SQLITE_COUNT && Utf8.Encodable(r[i].value)
  {
    if sources == [] then []
    else
      var s := sources[|sources| - 1];
      AllFeatures(env, sources[..|sources| - 1]) + Features(env, s.kind, s.outcome.items)
  }

  // ----- the table

  function RowOf(env: Env, f: Feature): Row<Digest>
    requires Utf8.Encodable(f.value)
  {
    Row(env.sha256(Message(f.kind, f.value)), f.count)
  }

  function RowsOf(env: Env, fs: seq<Feature>): (r: seq<Row<Digest>>)
    requires forall i :: 0 <= i < |fs| ==> Utf8.Encodable(fs[i].value)
    ensures |r| == |fs|
  {
    seq(|fs|, i requires 0 <= i < |fs| => RowOf(env, fs[i]))
  }

  // ----- building

  /** The result of `_aggregate_v2`: per-source (entry_count, occurrence_sum), the table, and
      the sum over the usable entries. */
  datatype Index = Index(table: Table<Digest>, sources: seq<(nat, int)>, recordCount: nat, occurrenceSum: int)

  function SourceStats(s: Source): (nat, int) {
    (|s.outcome.items|, SourceSum(s.outcome.items))
  }

  function AllStats(sources: seq<Source>): (r: seq<(nat, int)>)
    ensures |r| == |sources| && forall i :: 0 <= i < |sources| ==> r[i] == SourceStats(sources[i])
  {
    seq(|sources|, i requires 0 <= i < |sources| => SourceStats(sources[i]))
  }

  function Build(env: Env, sources: seq<Source>): Option<Index> {
    if forall i :: 0 <= i < |sources| ==> Readable(env, sources[i]) then
      var fs := AllFeatures(env, sources);
      var t := Upserts(map[], RowsOf(env, fs));
      Some(Index(t, AllStats(sources), |t|, CountSum(fs)))
    else None
  }

  lemma CountSumAppend(a: seq<Feature>, b: seq<Feature>)
    ensures CountSum(a + b) == CountSum(a) + CountSum(b)
  {
    if b == [] {
      assert a + b == a;
    } else {
      assert (a + b)[..|a + b| - 1] == a + b[..|b| - 1];
      CountSumAppend(a, b[..|b| - 1]);
    }
  }

  lemma RowsAppend(env: Env, a: seq<Feature>, b: seq<Feature>)
    requires forall i :: 0 <= i < |a| ==> Utf8.Encodable(a[i].value)
    requires forall i :: 0 <= i < |b| ==> Utf8.Encodable(b[i].value)
    ensures RowsOf(env, a + b) == RowsOf(env, a) + RowsOf(env, b)
  {
  }

  /** What one more usable entry adds. */
  lemma FeatureStep(env: Env, kind: Kind, items: seq<JS.Item>, i: nat, t: Table<Digest>)
    requires i < |items| && ReadEntry(env, kind, items[i]).Good?
    ensures var f := ReadEntry(env, kind, items[i]).f;
            var before, after := Features(env, kind, items[..i]), Features(env, kind, items[..i + 1]);
            && CountSum(after) == CountSum(before) + f.count
            && Upserts(t, RowsOf(env, after)) == Upsert(Upserts(t, RowsOf(env, before)), RowOf(env, f))
  {
    hide ReadEntry, Upsert;
    var f := ReadEntry(env, kind, items[i]).f;
    assert items[..i + 1][..i] == items[..i];
    var before := Features(env, kind, items[..i]);
    assert Features(env, kind, items[..i + 1]) == before + [f];
    RowsAppend(env, before, [f]);
    assert RowsOf(env, [f]) == [RowOf(env, f)];
    CountSumAppend(before, [f]);
    assert CountSum([f]) == f.count;
    UpsertsOne(Upserts(t, RowsOf(env, before)), RowOf(env, f));
    UpsertsAppend(t, RowsOf(env, before), [RowOf(env, f)]);
  }

  lemma SentinelStep(env: Env, kind: Kind, items: seq<JS.Item>, i: nat)
    requires i < |items| && ReadEntry(env, kind, items[i]).Sentinel?
    ensures Features(env, kind, items[..i + 1]) == Features(env, kind, items[..i])
  {
    assert items[..i + 1][..i] == items[..i];
  }

  lemma SourceSumStep(env: Env, kind: Kind, items: seq<JS.Item>, i: nat)
    requires i < |items|
    ensures match ReadEntry(env, kind, items[i])
            case Bad => true
            case Sentinel(n) => SourceSum(items[..i + 1]) == SourceSum(items[..i]) + n
            case Good(f) => SourceSum(items[..i + 1]) == SourceSum(items[..i]) + f.count
  {
    assert items[..i + 1][..i] == items[..i];
  }

  /** One source: its rows are inserted in batches of `batch`. */
  method AggregateSource(env: Env, source: Source, batch: nat, t: Table<Digest>)
    returns (ok: bool, r: Table<Digest>, stats: (nat, int), sum: int)
    requires batch >= 1
    ensures ok <==> Readable(env, source)
    ensures ok ==>
              var fs := Features(env, source.kind, source.outcome.items);
              && r == Upserts(t, RowsOf(env, fs)) && sum == CountSum(fs) && stats == SourceStats(source)
  {
    hide ReadEntry, Features, Upserts, Upsert, RowsOf, SourceSum, CountSum;
    var items, kind := source.outcome.items, source.kind;
    var rows: seq<Row<Digest>> := [];
    var occurrences := 0;
    r, sum, stats := t, 0, (0, 0);
    NothingRead(env, kind, t);
    assert items[..0] == [];
    for i := 0 to |items|
      invariant forall j :: 0 <= j < i ==> ReadEntry(env, kind, items[j]) != Bad
      invariant Upserts(r, rows) == Upserts(t, RowsOf(env, Features(env, kind, items[..i])))
      invariant sum == CountSum(Features(env, kind, items[..i]))
      invariant occurrences == SourceSum(items[..i])
    {
      SourceSumStep(env, kind, items, i);
      var entry := ReadEntry(env, kind, items[i]);
      match entry {
        case Bad =>
          return false, t, (0, 0), 0;
        case Sentinel(count) =>
          SentinelStep(env, kind, items, i);
          occurrences := occurrences + count;
        case Good(f) =>
          FeatureStep(env, kind, items, i, t);
          occurrences := occurrences + f.count;
          var row := RowOf(env, f);
          UpsertsOne(Upserts(r, rows), row);
          UpsertsAppend(r, rows, [row]);
          rows := rows + [row];
          sum := sum + f.count;
          if |rows| >= batch {
            r := InsertRows(r, rows);
            rows := [];
            UpsertsNone(r);
          }
      }
    }
    assert items[..|items|] == items;
    if !source.outcome.ok {
      return false, t, (0, 0), 0;
    }
    r := InsertRows(r, rows);
    return true, r, (|items|, occurrences), sum;
  }

  lemma NothingRead(env: Env, kind: Kind, t: Table<Digest>)
    ensures Features(env, kind, []) == [] && SourceSum([]) == 0 && CountSum([]) == 0
    ensures Upserts(t, []) == t && RowsOf(env, []) == []
  {
  }

  lemma AllFeaturesStep(env: Env, sources: seq<Source>, i: nat)
    requires i < |sources|
    ensures var before, after := AllFeatures(env, sources[..i]), AllFeatures(env, sources[..i + 1]);
            var fs := Features(env, sources[i].kind, sources[i].outcome.items);
            && CountSum(after) == CountSum(before) + CountSum(fs)
            && Upserts(map[], RowsOf(env, after)) == Upserts(Upserts(map[], RowsOf(env, before)), RowsOf(env, fs))
  {
    hide Features, Upserts, CountSum, RowsOf;
    assert sources[..i + 1][..i] == sources[..i];
    var before := AllFeatures(env, sources[..i]);
    var fs := Features(env, sources[i].kind, sources[i].outcome.items);
    assert AllFeatures(env, sources[..i + 1]) == before + fs;
    RowsAppend(env, before, fs);
    CountSumAppend(before, fs);
    UpsertsAppend(map[], RowsOf(env, before), RowsOf(env, fs));
  }

  /** `_aggregate_v2`, for every batch size. */
  method Aggregate(env: Env, sources: seq<Source>, batch: nat) returns (r: Option<Index>)
    requires batch >= 1
    ensures r == Build(env, sources)
  {
    hide Features, Upserts, CountSum, RowsOf, Readable, SourceStats;
    var table: Table<Digest> := map[];
    var stats: seq<(nat, int)> := [];
    var occurrenceSum := 0;
    NothingRead(env, KString, map[]);
    assert AllFeatures(env, sources[..0]) == [];
    for i := 0 to |sources|
      invariant forall j :: 0 <= j < i ==> Readable(env, sources[j])
      invariant table == Upserts(map[], RowsOf(env, AllFeatures(env, sources[..i])))
      invariant occurrenceSum == CountSum(AllFeatures(env, sources[..i]))
      invariant |stats| == i && forall j :: 0 <= j < i ==> stats[j] == SourceStats(sources[j])
    {
      AllFeaturesStep(env, sources, i);
      var ok, t, s, sum := AggregateSource(env, sources[i], batch, table);
      if !ok {
        return None;
      }
      table, stats, occurrenceSum := t, stats + [s], occurrenceSum + sum;
    }
    assert sources[..|sources|] == sources && stats == AllStats(sources);
    return Some(Index(table, stats, |table|, occurrenceSum));
  }

  // ----- lookup

  /** `lookup_feature`; the outer None is an error, the inner None is an absent feature. */
  function Lookup(env: Env, t: Table<Digest>, kind: Kind, value: Str): Option<Option<Cell>> {
    match LookupKey(env, kind, value)
    case None => None
    case Some(key) => Some(if key in t then Some(t[key]) else None)
  }

  /** The counts of all usable entries of a kind that normalise to a value. */
  function FeatureSum(fs: seq<Feature>, kind: Kind, value: Str): int {
    if fs == [] then 0
    else
      var f := fs[|fs| - 1];
      FeatureSum(fs[..|fs| - 1], kind, value) + (if f.kind == kind && f.value == value then f.count else 0)
  }

  /** SHA-256 separates the feature from those that were indexed. */
  predicate NoCollision(env: Env, fs: seq<Feature>, kind: Kind, value: Str)
    requires Utf8.Encodable(value) && forall i :: 0 <= i < |fs| ==> Utf8.Encodable(fs[i].value)
  {
    forall i :: 0 <= i < |fs| ==>
      (env.sha256(Message(fs[i].kind, fs[i].value)) == env.sha256(Message(kind, value)) ==>
         Message(fs[i].kind, fs[i].value) == Message(kind, value))
  }

  lemma {:induction false} KeySumIsFeatureSum(env: Env, fs: seq<Feature>, kind: Kind, value: Str)
    requires Utf8.Encodable(value) && forall i :: 0 <= i < |fs| ==> Utf8.Encodable(fs[i].value)
    requires NoCollision(env, fs, kind, value)
    ensures KeySum(RowsOf(env, fs), env.sha256(Message(kind, value))) == FeatureSum(fs, kind, value)
  {
    hide Message;
    if fs != [] {
      var last := |fs| - 1;
      KeySumIsFeatureSum(env, fs[..last], kind, value);
      assert RowsOf(env, fs)[..last] == RowsOf(env, fs[..last]);
      var f := fs[last];
      if Message(f.kind, f.value) == Message(kind, value) {
        MessageInjective(f.kind, f.value, kind, value);
      }
    }
  }

  // ----- the entries of the sources

  /** The entry counts for the value. */
  ghost predicate Counts(env: Env, k: Kind, item: JS.Item, kind: Kind, value: Str) {
    k == kind && !EmptyMark(k, item.0) && Means(env, kind, item.0, value)
  }

  /** The counts of the entries of one source that count for the value. */
  ghost function EntrySum(env: Env, k: Kind, items: seq<JS.Item>, kind: Kind, value: Str): int {
    if items == [] then 0
    else
      var it := items[|items| - 1];
      EntrySum(env, k, items[..|items| - 1], kind, value)
      + (if Counts(env, k, it, kind, value) && it.1.JInt? then it.1.n else 0)
  }

  ghost function AllEntries(env: Env, sources: seq<Source>, kind: Kind, value: Str): int {
    if sources == [] then 0
    else
      var s := sources[|sources| - 1];
      AllEntries(env, sources[..|sources| - 1], kind, value) + EntrySum(env, s.kind, s.outcome.items, kind, value)
  }

  /** Some entry counts for the value. */
  ghost predicate Occurs(env: Env, sources: seq<Source>, kind: Kind, value: Str) {
    exists i, j :: 0 <= i < |sources| && 0 <= j < |sources[i].outcome.items|
                   && Counts(env, sources[i].kind, sources[i].outcome.items[j], kind, value)
  }

  lemma {:induction false} FeatureSumAppend(a: seq<Feature>, b: seq<Feature>, kind: Kind, value: Str)
    ensures FeatureSum(a + b, kind, value) == FeatureSum(a, kind, value) + FeatureSum(b, kind, value)
  {
    if b == [] {
      assert a + b == a;
    } else {
      assert (a + b)[..|a + b| - 1] == a + b[..|b| - 1];
      FeatureSumAppend(a, b[..|b| - 1], kind, value);
    }
  }

  lemma EntryCounts(env: Env, k: Kind, item: JS.Item, kind: Kind, value: Str)
    requires ReadEntry(env, k, item) != Bad && Utf8.Encodable(value)
    ensures item.1.JInt? && item.1.n >= 1
    ensures Counts(env, k, item, kind, value) <==>
            var e := ReadEntry(env, k, item); e.Good? && e.f.kind == kind && e.f.value == value
    ensures ReadEntry(env, k, item).Good? ==> ReadEntry(env, k, item).f.count == item.1.n
  {
    hide Normalize, Means;
    NormalizeExactly(env, k, item.0, value);
  }

  /** What the last pair of a source adds to a feature's sum. */
  lemma LastEntry(env: Env, k: Kind, items: seq<JS.Item>, kind: Kind, value: Str)
    requires items != []
    ensures var last := |items| - 1;
            var e := ReadEntry(env, k, items[last]);
            FeatureSum(Features(env, k, items), kind, value) ==
            FeatureSum(Features(env, k, items[..last]), kind, value)
            + (if e.Good? && e.f.kind == kind && e.f.value == value then e.f.count else 0)
  {
    hide ReadEntry;
    var e := ReadEntry(env, k, items[|items| - 1]);
    var fs := Features(env, k, items[..|items| - 1]);
    assert Features(env, k, items) == fs + (if e.Good? then [e.f] else []);
    assert e.Good? ==> (fs + [e.f])[..|fs + [e.f]| - 1] == fs;
    assert fs + [] == fs;
  }

  lemma {:induction false} SourceEntries(env: Env, k: Kind, items: seq<JS.Item>, kind: Kind, value: Str)
    requires Utf8.Encodable(value) && forall i :: 0 <= i < |items| ==> ReadEntry(env, k, items[i]) != Bad
    ensures EntrySum(env, k, items, kind, value) == FeatureSum(Features(env, k, items), kind, value) >= 0
    ensures EntrySum(env, k, items, kind, value) == 0 <==>
            forall j :: 0 <= j < |items| ==> !Counts(env, k, items[j], kind, value)
  {
    hide ReadEntry, Counts, Features, FeatureSum;
    if items == [] {
      NoEntries(env, k, kind, value);
    } else {
      var last := |items| - 1;
      SourceEntries(env, k, items[..last], kind, value);
      EntryCounts(env, k, items[last], kind, value);
      LastEntry(env, k, items, kind, value);
      assert items == items[..last] + [items[last]];
    }
  }

  lemma NoEntries(env: Env, k: Kind, kind: Kind, value: Str)
    ensures FeatureSum(Features(env, k, []), kind, value) == 0
  {
  }

  lemma {:induction false} AllEntriesCount(env: Env, sources: seq<Source>, kind: Kind, value: Str)
    requires Utf8.Encodable(value) && forall i :: 0 <= i < |sources| ==> Readable(env, sources[i])
    ensures AllEntries(env, sources, kind, value) == FeatureSum(AllFeatures(env, sources), kind, value) >= 0
    ensures AllEntries(env, sources, kind, value) == 0 <==> !Occurs(env, sources, kind, value)
  {
    hide Features, EntrySum, Counts, ReadEntry, FeatureSum;
    if sources == [] {
      NoFeatures(kind, value);
    } else {
      var last := |sources| - 1;
      var s := sources[last];
      AllEntriesCount(env, sources[..last], kind, value);
      SourceEntries(env, s.kind, s.outcome.items, kind, value);
      FeatureSumAppend(AllFeatures(env, sources[..last]), Features(env, s.kind, s.outcome.items), kind, value);
      OccursInLast(env, sources, kind, value);
    }
  }

  lemma NoFeatures(kind: Kind, value: Str)
    ensures FeatureSum([], kind, value) == 0
  {
  }

  lemma OccursInLast(env: Env, sources: seq<Source>, kind: Kind, value: Str)
    requires sources != []
    ensures var last := |sources| - 1;
            var s := sources[last];
            Occurs(env, sources, kind, value) <==>
              || Occurs(env, sources[..last], kind, value)
              || exists j :: 0 <= j < |s.outcome.items| && Counts(env, s.kind, s.outcome.items[j], kind, value)
  {
    hide Counts;
    var last := |sources| - 1;
    if Occurs(env, sources[..last], kind, value) {
      var i, j :| 0 <= i < last && 0 <= j < |sources[..last][i].outcome.items|
                  && Counts(env, sources[..last][i].kind, sources[..last][i].outcome.items[j], kind, value);
      assert sources[i] == sources[..last][i];
    }
    if Occurs(env, sources, kind, value) {
      var i, j :| 0 <= i < |sources| && 0 <= j < |sources[i].outcome.items|
                  && Counts(env, sources[i].kind, sources[i].outcome.items[j], kind, value);
      if i < last {
        assert sources[i] == sources[..last][i];
      }
    }
  }

  /** MAIN: in every index that was built, a lookup is the plain sum of the counts of the
      entries that count for the value, and absent exactly when there are none; the count
      is an integer exactly when that sum fits SQLite's. */
  lemma LookupIsSum(env: Env, sources: seq<Source>, kind: Kind, value: Str)
    requires Build(env, sources).Some? && Utf8.Encodable(value)
    requires NoCollision(env, AllFeatures(env, sources), kind, value)
    ensures var t, sum := Build(env, sources).value.table, AllEntries(env, sources, kind, value);
            && (sum == 0 <==> !Occurs(env, sources, kind, value))
            && Lookup(env, t, kind, value) ==
               Some(if sum == 0 then None
                    else if sum <= JS.MAX_SQLITE_COUNT then Some(Int(sum))
                    else Some(Real))
  {
    hide Message, Upserts, KeySum, FeatureSum, AllEntries, Occurs, Readable;
    var fs := AllFeatures(env, sources);
    var key := env.sha256(Message(kind, value));
    UpsertsAreSums(RowsOf(env, fs), key);
    KeySumIsFeatureSum(env, fs, kind, value);
    AllEntriesCount(env, sources, kind, value);
  }

  /** The pair can be read: a count that SQLite holds, and an empty mark or a feature that UTF-8
      can encode. */
  ghost predicate UsablePair(env: Env, k: Kind, item: JS.Item) {
    && item.1.JInt? && 1 <= item.1.n < 0x8000_0000_0000_0000
    && (EmptyMark(k, item.0) || exists value :: Utf8.Encodable(value) && Means(env, k, item.0, value))
  }

  lemma UsablePairReads(env: Env, k: Kind, item: JS.Item)
    ensures ReadEntry(env, k, item) != Bad <==> UsablePair(env, k, item)
    ensures ReadEntry(env, k, item).Sentinel? <==> JS.ValidCount(item.1) && EmptyMark(k, item.0)
  {
    hide Normalize, Means, Utf8.Encodable;
    if Normalize(env, k, item.0).Some? {
      NormalizeExactly(env, k, item.0, Normalize(env, k, item.0).value);
    }
    if value :| Utf8.Encodable(value) && Means(env, k, item.0, value) {
      NormalizeExactly(env, k, item.0, value);
    }
  }

  /** MAIN: an index is built if and only if every source was read to its end and each of its pairs
      is usable; the empty keys of strings and import hashes are, those of exports are not. */
  lemma BuiltExactly(env: Env, sources: seq<Source>)
    ensures Build(env, sources).Some? <==>
            forall i :: 0 <= i < |sources| ==>
              sources[i].outcome.ok
              && forall j :: 0 <= j < |sources[i].outcome.items| ==> UsablePair(env, sources[i].kind, sources[i].outcome.items[j])
  {
    hide ReadEntry, UsablePair, Upserts;
    forall i | 0 <= i < |sources|
      ensures Readable(env, sources[i]) <==>
              sources[i].outcome.ok
              && forall j :: 0 <= j < |sources[i].outcome.items| ==> UsablePair(env, sources[i].kind, sources[i].outcome.items[j])
    {
      forall j | 0 <= j < |sources[i].outcome.items|
        ensures ReadEntry(env, sources[i].kind, sources[i].outcome.items[j]) != Bad
                <==> UsablePair(env, sources[i].kind, sources[i].outcome.items[j])
      {
        UsablePairReads(env, sources[i].kind, sources[i].outcome.items[j]);
      }
    }
  }

  /** One string source that holds a text once as yarGen writes it and once in its UTF-16 form. */
  function BothForms(v: Str, m: nat, n: nat): Source {
    Source(KString, JS.Outcome([(Escape(v), J.JInt(m)), (Escape(UTF16_MARKER + v), J.JInt(n))], true))
  }

  /** So a lookup of the text in lower case finds both entries. */
  lemma BothFormsFound(env: Env, v: Str, m: nat, n: nat)
    requires v != [] && !(UTF16_MARKER <= v) && env.lower(v) != [] && Utf8.Encodable(env.lower(v))
    requires 1 <= m && 1 <= n && m + n <= JS.MAX_SQLITE_COUNT
    requires NoCollision(env, AllFeatures(env, [BothForms(v, m, n)]), KString, env.lower(v))
    ensures Build(env, [BothForms(v, m, n)]).Some?
    ensures Lookup(env, Build(env, [BothForms(v, m, n)]).value.table, KString, env.lower(v)) == Some(Some(Int(m + n)))
  {
    hide Upserts, Means, Escape;
    var s, w := BothForms(v, m, n), env.lower(v);
    var items := s.outcome.items;
    WrittenKeys(env, v);
    WrittenNotEmpty(v);
    WrittenNotEmpty(UTF16_MARKER + v);
    NormalizeExactly(env, KString, items[0].0, w);
    NormalizeExactly(env, KString, items[1].0, w);
    assert Readable(env, s);
    assert [s][..0] == [] && items[..1] == [items[0]] && items[..1][..0] == [];
    assert EntrySum(env, KString, items[..1], KString, w) == m;
    assert AllEntries(env, [s], KString, w) == m + n;
    LookupIsSum(env, [s], KString, w);
  }

  lemma WrittenNotEmpty(v: Str)
    requires v != []
    ensures Escape(v) != []
  {
  }

  // ----- conservation and deep verification

  lemma {:induction false} RowSumIsCountSum(env: Env, fs: seq<Feature>)
    requires forall i :: 0 <= i < |fs| ==> Utf8.Encodable(fs[i].value)
    ensures RowSum(RowsOf(env, fs)) == CountSum(fs)
  {
    if fs != [] {
      RowSumIsCountSum(env, fs[..|fs| - 1]);
      assert RowsOf(env, fs)[..|fs| - 1] == RowsOf(env, fs[..|fs| - 1]);
    }
  }

  /** The deep queries of `_verify_sqlite_index`: no malformed row, and COUNT and SUM as the
      manifest says; SQLite's SUM raises an error when it leaves its integers. */
  ghost predicate DeepVerify(t: Table<Digest>, recordCount: int, occurrenceSum: int) {
    && (forall k :: k in t ==> |k| == 32 && t[k].Int? && t[k].n > 0)
    && TableSum(t) <= JS.MAX_SQLITE_COUNT
    && |t| == recordCount && TableSum(t) == occurrenceSum
  }

  /** MAIN: deep verification accepts what was built exactly when the total occurrence count
      is a SQLite integer. */
  lemma BuiltIsDeepVerified(env: Env, sources: seq<Source>)
    requires Build(env, sources).Some?
    ensures var ix := Build(env, sources).value;
            DeepVerify(ix.table, ix.recordCount, ix.occurrenceSum) <==> ix.occurrenceSum <= JS.MAX_SQLITE_COUNT
  {
    hide Upserts, RowSum, TableSum;
    var rows := RowsOf(env, AllFeatures(env, sources));
    var t := Build(env, sources).value.table;
    RowSumIsCountSum(env, AllFeatures(env, sources));
    if RowSum(rows) <= JS.MAX_SQLITE_COUNT {
      UpsertsConserve(rows);
    } else if forall k :: k in t ==> t[k].Int? && t[k].n > 0 {
      forall k | k in t ensures 1 <= t[k].n <= JS.MAX_SQLITE_COUNT {
        UpsertsAreSums(rows, k);
      }
      IntegersConserve(rows);
    }
  }

  // ----- an input that is refused

  /** Two exports, one with the largest count and one with the count 1. */
  const TOO_MANY: Source :=
    Source(KExport, JS.Outcome([([97], J.JInt(JS.MAX_SQLITE_COUNT)), ([98], J.JInt(1))], true))

  lemma TooManyFeatures(env: Env)
    requires env.lower([97]) == [97] && env.lower([98]) == [98]
    ensures Readable(env, TOO_MANY)
    ensures AllFeatures(env, [TOO_MANY]) ==
            [Feature(KExport, [97], JS.MAX_SQLITE_COUNT), Feature(KExport, [98], 1)]
  {
    var items := TOO_MANY.outcome.items;
    assert ReadEntry(env, KExport, items[0]) == Good(Feature(KExport, [97], JS.MAX_SQLITE_COUNT));
    assert ReadEntry(env, KExport, items[1]) == Good(Feature(KExport, [98], 1));
    assert items[..1] == [items[0]] && items[..1][..0] == [];
    assert Features(env, KExport, items[..1]) == [] + [Feature(KExport, [97], JS.MAX_SQLITE_COUNT)];
    assert Features(env, KExport, items) == Features(env, KExport, items[..1]) + [Feature(KExport, [98], 1)];
    assert [TOO_MANY][..0] == [];
  }

  /** The counts are usable, the index is built, and deep verification refuses it: their sum is
      2^63. */
  lemma BuiltButRefused(env: Env)
    requires env.lower([97]) == [97] && env.lower([98]) == [98]
    ensures Build(env, [TOO_MANY]).Some?
    ensures var ix := Build(env, [TOO_MANY]).value;
            ix.occurrenceSum == 0x8000_0000_0000_0000 && !DeepVerify(ix.table, ix.recordCount, ix.occurrenceSum)
  {
    hide Upserts, TableSum, Readable, AllFeatures;
    TooManyFeatures(env);
    var fs := AllFeatures(env, [TOO_MANY]);
    assert fs[..1] == [fs[0]] && fs[..1][..0] == [];
    assert CountSum(fs[..1]) == CountSum(fs[..1][..0]) + JS.MAX_SQLITE_COUNT;
    BuiltIsDeepVerified(env, [TOO_MANY]);
  }

  function StatsSum(stats: seq<(nat, int)>): int {
    if stats == [] then 0 else StatsSum(stats[..|stats| - 1]) + stats[|stats| - 1].1
  }

  function AllSentinels(env: Env, sources: seq<Source>): int {
    if sources == [] then 0
    else
      var s := sources[|sources| - 1];
      AllSentinels(env, sources[..|sources| - 1]) + SentinelSum(env, s.kind, s.outcome.items)
  }

  lemma {:induction false} SourceConserves(env: Env, kind: Kind, items: seq<JS.Item>)
    requires forall i :: 0 <= i < |items| ==> ReadEntry(env, kind, items[i]) != Bad
    ensures SourceSum(items) == CountSum(Features(env, kind, items)) + SentinelSum(env, kind, items)
  {
    hide ReadEntry;
    if items != [] {
      var last := |items| - 1;
      SourceSumStep(env, kind, items, last);
      assert items[..last + 1] == items;
      SourceConserves(env, kind, items[..last]);
      var e := ReadEntry(env, kind, items[last]);
      if e.Good? {
        CountSumAppend(Features(env, kind, items[..last]), [e.f]);
        assert CountSum([e.f]) == e.f.count;
      } else {
        assert Features(env, kind, items) == Features(env, kind, items[..last]);
      }
    }
  }

  lemma {:induction false} SourcesConserve(env: Env, sources: seq<Source>)
    requires forall i :: 0 <= i < |sources| ==> Readable(env, sources[i])
    ensures StatsSum(AllStats(sources)) == CountSum(AllFeatures(env, sources)) + AllSentinels(env, sources)
  {
    if sources != [] {
      var last := |sources| - 1;
      var s := sources[last];
      SourcesConserve(env, sources[..last]);
      assert AllStats(sources)[..last] == AllStats(sources[..last]);
      SourceConserves(env, s.kind, s.outcome.items);
      CountSumAppend(AllFeatures(env, sources[..last]), Features(env, s.kind, s.outcome.items));
    }
  }

  /** MAIN: the per-source sums of the manifest are its occurrence sum plus the sentinels, and
      the table has one row for each distinct key. */
  lemma BuiltConserves(env: Env, sources: seq<Source>)
    requires Build(env, sources).Some?
    ensures var ix := Build(env, sources).value;
            && StatsSum(ix.sources) == ix.occurrenceSum + AllSentinels(env, sources)
            && ix.recordCount == |set i | 0 <= i < |AllFeatures(env, sources)| :: RowOf(env, AllFeatures(env, sources)[i]).key|
  {
    hide Upserts, AllFeatures, AllStats, StatsSum, AllSentinels, CountSum, Message;
    SourcesConserve(env, sources);
    var fs := AllFeatures(env, sources);
    KeysOf(RowsOf(env, fs));
    var rows := RowsOf(env, fs);
    assert (set i | 0 <= i < |fs| :: RowOf(env, fs[i]).key) == (set i | 0 <= i < |rows| :: rows[i].key) by {
      assert forall i :: 0 <= i < |fs| ==> rows[i] == RowOf(env, fs[i]);
    }
  }

  lemma {:induction false} KeysOf(rows: seq<Row<Digest>>)
    ensures Upserts(map[], rows).Keys == set i | 0 <= i < |rows| :: rows[i].key
  {
    if rows != [] {
      var last := |rows| - 1;
      KeysOf(rows[..last]);
      assert (set i | 0 <= i < |rows| :: rows[i].key) == (set i | 0 <= i < last :: rows[..last][i].key) + {rows[last].key};
    }
  }

  // ----- the index does not depend on how the files were read

  /** A source file as the reads deliver it. */
  datatype Delivery = Delivery(kind: Kind, parts: seq<Bytes>)

  function ReadAll(ds: seq<Delivery>, max: int): (r: seq<Source>)
    ensures |r| == |ds|
  {
    seq(|ds|, i requires 0 <= i < |ds| => Source(ds[i].kind, SR.ReadSource(ds[i].parts, max)))
  }

  lemma ReadableIsUsable(env: Env, s: Source)
    requires Readable(env, s)
    ensures JS.Usable(s.outcome)
  {
    forall i | 0 <= i < |s.outcome.items| ensures JS.ValidCount(s.outcome.items[i].1) {
      assert ReadEntry(env, s.kind, s.outcome.items[i]) != Bad;
    }
  }

  /** MAIN: two deliveries of the same files, cut into reads in any way, build the same index
      or both fail: from bytes to table the chunking is unobservable. */
  lemma BuildIndependentOfReads(env: Env, a: seq<Delivery>, b: seq<Delivery>, max: int)
    requires |a| == |b|
    requires forall i :: 0 <= i < |a| ==> a[i].kind == b[i].kind && Concat(a[i].parts) == Concat(b[i].parts)
    ensures Build(env, ReadAll(a, max)) == Build(env, ReadAll(b, max))
  {
    hide SR.ReadSource, JS.Usable, Readable;
    var sa, sb := ReadAll(a, max), ReadAll(b, max);
    forall i | 0 <= i < |a|
      ensures JS.Usable(sa[i].outcome) <==> JS.Usable(sb[i].outcome)
      ensures JS.Usable(sa[i].outcome) ==> sa[i] == sb[i]
      ensures Readable(env, sa[i]) ==> JS.Usable(sa[i].outcome)
      ensures Readable(env, sb[i]) ==> JS.Usable(sb[i].outcome)
    {
      SR.SameBytesSameItems(a[i].parts, b[i].parts, max);
      if Readable(env, sa[i]) {
        ReadableIsUsable(env, sa[i]);
      }
      if Readable(env, sb[i]) {
        ReadableIsUsable(env, sb[i]);
      }
    }
    if forall i :: 0 <= i < |a| ==> JS.Usable(sa[i].outcome) {
      assert sa == sb;
    } else {
      var i :| 0 <= i < |a| && !JS.Usable(sa[i].outcome);
      assert !Readable(env, sa[i]) && !Readable(env, sb[i]);
    }
  }
}
