/** The incremental surrogate-key registry `assign_ids`: a master table maps each
    natural key to a dense integer id; a batch's unseen keys are numbered on from
    the end of the master, and the batch is left-joined to the master. */
module Registry {
  import opened Frames

  /** A natural key: the values of the key columns, in key-column order. */
  type Key = seq<Cell>

  /** One master row: the key columns and the surrogate id column. */
  datatype Entry = Entry(key: Key, id: int)

  type Master = seq<Entry>

  /** The id of the entry at position i is i + 1. */
  predicate Dense(m: Master) {
    forall i :: 0 <= i < |m| ==> m[i].id == i + 1
  }

  predicate UniqueKeys(m: Master) {
    forall i, j :: 0 <= i < j < |m| ==> m[i].key != m[j].key
  }

  predicate KeyWidth(m: Master, width: nat) {
    forall i :: 0 <= i < |m| ==> |m[i].key| == width
  }

  /** What every master table is between two `assign_ids` calls. */
  predicate IsRegistry(m: Master, width: nat) {
    Dense(m) && UniqueKeys(m) && KeyWidth(m, width)
  }

  function Keys(m: Master): set<Key> {
    set i | 0 <= i < |m| :: m[i].key
  }

  function Ids(m: Master): set<int> {
    set i | 0 <= i < |m| :: m[i].id
  }

  predicate Distinct(ks: seq<Key>) {
    forall i, j :: 0 <= i < j < |ks| ==> ks[i] != ks[j]
  }

  function Elements(ks: seq<Key>): set<Key> {
    set k | k in ks
  }

  function KeyOf(r: Row, cols: seq<string>): (k: Key)
    requires RowHas(r, cols)
    ensures |k| == |cols|
    ensures forall j :: 0 <= j < |cols| ==> k[j] == r[cols[j]]
  {
    seq(|cols|, j requires 0 <= j < |cols| => r[cols[j]])
  }

  /** `df[key_cols]`, row by row. */
  function BatchKeys(f: Frame, cols: seq<string>): (ks: seq<Key>)
    requires HasColumns(f, cols)
    ensures |ks| == |f.rows|
    ensures forall i :: 0 <= i < |f.rows| ==> RowHas(f.rows[i], cols) && ks[i] == KeyOf(f.rows[i], cols)
  {
    assert forall c :: c in cols ==> c in ColumnSet(f.columns);
    seq(|f.rows|, i requires 0 <= i < |f.rows| => KeyOf(f.rows[i], cols))
  }

  /** `drop_duplicates()`: the distinct keys, each where it first occurs. */
  function Dedup(ks: seq<Key>): (d: seq<Key>)
    ensures Distinct(d)
    ensures forall k :: k in d <==> k in ks
    decreases |ks|
  {
    if ks == [] then []
    else
      var d := Dedup(ks[..|ks| - 1]);
      assert forall k :: k in ks <==> k in ks[..|ks| - 1] || k == ks[|ks| - 1];
      if ks[|ks| - 1] in d then d else d + [ks[|ks| - 1]]
  }

  /** `~...isin(master)`: the keys not already known, in their order. */
  function Unseen(ds: seq<Key>, known: set<Key>): (u: seq<Key>)
    ensures forall k :: k in u <==> k in ds && k !in known
    ensures Distinct(ds) ==> Distinct(u)
  {
    if ds == [] then []
    else
      var rest := Unseen(ds[1..], known);
      assert forall k :: k in ds <==> k == ds[0] || k in ds[1..];
      assert Distinct(ds) ==> ds[0] !in ds[1..];
      if ds[0] in known then rest else [ds[0]] + rest
  }

  /** `range(len(master) + 1, ...)` and `pd.concat`: the new keys numbered on after the master. */
  function Numbered(m: Master, news: seq<Key>): (r: Master)
    ensures |r| == |m| + |news| && r[..|m|] == m
    ensures forall i :: |m| <= i < |r| ==> r[i].key == news[i - |m|] && r[i].id == i + 1
  {
    m + seq(|news|, j requires 0 <= j < |news| => Entry(news[j], |m| + 1 + j))
  }

  /** Steps 1 to 4 of `assign_ids`: the master after the batch's unseen keys are appended. */
  function Register(f: Frame, m: Master, cols: seq<string>): (r: Master)
    requires HasColumns(f, cols)
    ensures |r| >= |m| && r[..|m|] == m
  {
    Numbered(m, Unseen(Dedup(BatchKeys(f, cols)), Keys(m)))
  }

  /** Two rows that agree on the key columns have the same key. */
  lemma KeyOfAgree(r: Row, r': Row, cols: seq<string>)
    requires RowHas(r, cols) && RowHas(r', cols)
    requires forall c :: c in cols ==> r[c] == r'[c]
    ensures KeyOf(r, cols) == KeyOf(r', cols)
  {
    assert forall j :: 0 <= j < |cols| ==> cols[j] in cols;
  }

  /** The ids of the master entries with key k, in master order. */
  function Matches(m: Master, k: Key): seq<int> {
    if m == [] then [] else (if m[0].key == k then [m[0].id] else []) + Matches(m[1..], k)
  }

  function SuffixX(idCol: string): string { idCol + "_x" }
  function SuffixY(idCol: string): string { idCol + "_y" }

  /** The name under which the master's id lands in a joined row: the id column,
      or its `_y` name when the batch already has a column of that name. */
  function IdLanding(idCol: string, clash: bool): string {
    if clash then SuffixY(idCol) else idCol
  }

  /** One joined row. When the batch already has a column named like the id column,
      merge keeps both under the suffixes `_x` (the batch's) and `_y` (the master's).
      A `_y` column the batch already had is shadowed by the master's in the row. */
  function Attach(r: Row, idCol: string, v: Cell, clash: bool): Row
    requires clash ==> idCol in r
  {
    if clash then (r - {idCol})[SuffixX(idCol) := r[idCol]][SuffixY(idCol) := v]
    else r[idCol := v]
  }

  function AttachedKeys(s: set<string>, idCol: string, clash: bool): set<string> {
    if clash then (s - {idCol}) + {SuffixX(idCol), SuffixY(idCol)} else s + {idCol}
  }

  /** A left join of one row: one output row per matching master entry, or one row
      with a null id when no entry matches. */
  function JoinRow(r: Row, m: Master, cols: seq<string>, idCol: string, clash: bool): (j: seq<Row>)
    requires RowHas(r, cols) && (clash ==> idCol in r)
    ensures |j| >= 1
  {
    var ids := Matches(m, KeyOf(r, cols));
    if ids == [] then [Attach(r, idCol, Null, clash)]
    else seq(|ids|, j requires 0 <= j < |ids| => Attach(r, idCol, Num(ids[j]), clash))
  }

  /** A left join: no row is dropped. */
  function JoinRows(rows: seq<Row>, m: Master, cols: seq<string>, idCol: string, clash: bool): (j: seq<Row>)
    requires forall i :: 0 <= i < |rows| ==> RowHas(rows[i], cols) && (clash ==> idCol in rows[i])
    ensures |j| >= |rows|
  {
    if rows == [] then []
    else JoinRow(rows[0], m, cols, idCol, clash) + JoinRows(rows[1..], m, cols, idCol, clash)
  }

  function Rename(cols: seq<string>, from: string, to: string): (r: seq<string>)
    ensures ColumnSet(r) == if from in cols then (ColumnSet(cols) - {from}) + {to} else ColumnSet(cols)
  {
    if cols == [] then []
    else
      var rest := Rename(cols[1..], from, to);
      var head := if cols[0] == from then to else cols[0];
      assert ColumnSet(cols) == {cols[0]} + ColumnSet(cols[1..]);
      assert ColumnSet([head] + rest) == {head} + ColumnSet(rest);
      assert from in cols <==> cols[0] == from || from in cols[1..];
      [head] + rest
  }

  /** The columns of the joined frame: the batch's, then the id column. */
  function JoinColumns(cols: seq<string>, idCol: string): seq<string> {
    if idCol in cols then Rename(cols, idCol, SuffixX(idCol)) + [SuffixY(idCol)] else cols + [idCol]
  }

  lemma {:induction false} JoinRowsShape(rows: seq<Row>, m: Master, cols: seq<string>, idCol: string, clash: bool, s: set<string>)
    requires forall i :: 0 <= i < |rows| ==> RowHas(rows[i], cols) && (clash ==> idCol in rows[i])
    requires forall i :: 0 <= i < |rows| ==> rows[i].Keys == s
    ensures forall i :: 0 <= i < |JoinRows(rows, m, cols, idCol, clash)| ==>
              JoinRows(rows, m, cols, idCol, clash)[i].Keys == AttachedKeys(s, idCol, clash)
    decreases |rows|
  {
    if rows != [] {
      JoinRowsShape(rows[1..], m, cols, idCol, clash, s);
    }
  }

  /** Step 5 of `assign_ids`: `df.merge(master_df, on=key_cols, how='left')`. The
      merge raises when a suffix makes two labels of one side equal. Only the batch
      can be hit: its `<id>` becomes `<id>_x`, which clashes with a `<id>_x` it
      already has. The master's side only ever gains `<id>_y`. */
  function Join(f: Frame, m: Master, cols: seq<string>, idCol: string): (r: Result<Frame>)
    requires HasColumns(f, cols)
    ensures r.Ok? <==> !(idCol in f.columns && SuffixX(idCol) in f.columns)
    ensures r.Err? ==> r == Err(SuffixClash(idCol))
  {
    var clash := idCol in f.columns;
    if clash && SuffixX(idCol) in f.columns then Err(SuffixClash(idCol))
    else
      var _ := BatchKeys(f, cols);
      assert forall i :: 0 <= i < |f.rows| ==> (clash ==> idCol in f.rows[i]);
      JoinRowsShape(f.rows, m, cols, idCol, clash, ColumnSet(f.columns));
      assert ColumnSet(JoinColumns(f.columns, idCol)) == AttachedKeys(ColumnSet(f.columns), idCol, clash);
      Ok(Table(JoinColumns(f.columns, idCol), JoinRows(f.rows, m, cols, idCol, clash)))
  }

  /** `assign_ids(df, master_df, key_cols, id_col)`: the batch with an id column and the
      grown master, or the exception that stops it (then the caller keeps its master). */
  function AssignIds(f: Frame, m: Master, cols: seq<string>, idCol: string): (r: Result<(Frame, Master)>)
    requires idCol !in cols
    ensures r.Ok? <==> HasColumns(f, cols) && !(idCol in f.columns && SuffixX(idCol) in f.columns)
    ensures !HasColumns(f, cols) ==> r == Err(MissingColumn(FirstMissing(f.columns, cols)))
    ensures HasColumns(f, cols) && r.Err? ==> r == Err(SuffixClash(idCol))
  {
    if !HasColumns(f, cols) then Err(MissingColumn(FirstMissing(f.columns, cols)))
    else
      var grown := Register(f, m, cols);
      var joined :- Join(f, grown, cols, idCol);
      Ok((joined, grown))
  }

  // ---------------------------------------------------------------------------
  // Properties of the registry

  function BatchKeySet(f: Frame, cols: seq<string>): set<Key>
    requires HasColumns(f, cols)
  {
    Elements(BatchKeys(f, cols))
  }

  lemma {:induction false} DistinctCard(s: seq<Key>)
    requires Distinct(s)
    ensures |Elements(s)| == |s|
    decreases |s|
  {
    if s != [] {
      var init := s[..|s| - 1];
      DistinctCard(init);
      assert Elements(s) == Elements(init) + {s[|s| - 1]};
      assert s[|s| - 1] !in Elements(init);
    }
  }

  lemma NumberedUnique(m: Master, news: seq<Key>)
    requires UniqueKeys(m) && Distinct(news)
    requires forall k :: k in news ==> k !in Keys(m)
    ensures UniqueKeys(Numbered(m, news))
  {
    var n := Numbered(m, news);
    forall i, j | 0 <= i < j < |n| ensures n[i].key != n[j].key {
      if j >= |m| && i < |m| {
        assert n[j].key == news[j - |m|];
        assert n[i].key in Keys(m);
      } else if i >= |m| {
        assert n[i].key == news[i - |m|] && n[j].key == news[j - |m|];
      }
    }
  }

  lemma NumberedKeys(m: Master, news: seq<Key>)
    ensures Keys(Numbered(m, news)) == Keys(m) + Elements(news)
  {
    var n := Numbered(m, news);
    forall k | k in Keys(m) + Elements(news) ensures k in Keys(n) {
      if k in Keys(m) {
        var i :| 0 <= i < |m| && m[i].key == k;
        assert n[i].key == k;
      } else {
        var j :| 0 <= j < |news| && news[j] == k;
        assert n[|m| + j].key == k;
      }
    }
    forall k | k in Keys(n) ensures k in Keys(m) + Elements(news) {
      var i :| 0 <= i < |n| && n[i].key == k;
      if i >= |m| { assert news[i - |m|] == k; }
    }
  }

  lemma NumberedShape(m: Master, news: seq<Key>, width: nat)
    requires IsRegistry(m, width)
    requires Distinct(news)
    requires forall k :: k in news ==> k !in Keys(m) && |k| == width
    ensures IsRegistry(Numbered(m, news), width)
    ensures Keys(Numbered(m, news)) == Keys(m) + Elements(news)
  {
    NumberedUnique(m, news);
    NumberedKeys(m, news);
    var n := Numbered(m, news);
    assert forall i :: |m| <= i < |n| ==> n[i] == Entry(news[i - |m|], i + 1);
  }

  /** Keys added by an `assign_ids` call come from the batch and have the key's width. */
  lemma RegisterFacts(f: Frame, m: Master, cols: seq<string>)
    requires HasColumns(f, cols)
    ensures var u := Unseen(Dedup(BatchKeys(f, cols)), Keys(m));
      && Distinct(u)
      && (forall k :: k in u <==> k in BatchKeySet(f, cols) && k !in Keys(m))
      && (forall k :: k in u ==> |k| == |cols|)
  {
    var bk := BatchKeys(f, cols);
    forall k | k in bk ensures |k| == |cols| {
      var i :| 0 <= i < |bk| && bk[i] == k;
    }
  }

  lemma AssignIdsParts(f: Frame, m: Master, cols: seq<string>, idCol: string)
    requires idCol !in cols
    requires AssignIds(f, m, cols, idCol).Ok?
    ensures HasColumns(f, cols)
    ensures AssignIds(f, m, cols, idCol).value.1 == Register(f, m, cols)
    ensures Join(f, Register(f, m, cols), cols, idCol).Ok?
    ensures AssignIds(f, m, cols, idCol).value.0 == Join(f, Register(f, m, cols), cols, idCol).value
  {
  }

  /** The master `Register` returns is still a registry, and it knows exactly the
      old keys and the batch's. */
  lemma RegisterKeepsRegistry(f: Frame, m: Master, cols: seq<string>)
    requires HasColumns(f, cols) && IsRegistry(m, |cols|)
    ensures IsRegistry(Register(f, m, cols), |cols|)
    ensures Keys(Register(f, m, cols)) == Keys(m) + BatchKeySet(f, cols)
  {
    RegisterFacts(f, m, cols);
    var u := Unseen(Dedup(BatchKeys(f, cols)), Keys(m));
    NumberedShape(m, u, |cols|);
    assert Elements(u) == BatchKeySet(f, cols) - Keys(m);
  }

  /** The master after a call is still dense (the entry at position i has id i + 1),
      unique by key, and every key has one value per key column. */
  lemma AssignIdsKeepsRegistry(f: Frame, m: Master, cols: seq<string>, idCol: string)
    requires idCol !in cols && IsRegistry(m, |cols|)
    requires AssignIds(f, m, cols, idCol).Ok?
    ensures IsRegistry(AssignIds(f, m, cols, idCol).value.1, |cols|)
  {
    AssignIdsParts(f, m, cols, idCol);
    RegisterKeepsRegistry(f, m, cols);
  }

  /** Existing master rows are kept unchanged, as a prefix: no id is ever renumbered. */
  lemma AssignIdsKeepsPrefix(f: Frame, m: Master, cols: seq<string>, idCol: string)
    requires idCol !in cols
    requires AssignIds(f, m, cols, idCol).Ok?
    ensures var m' := AssignIds(f, m, cols, idCol).value.1;
      |m| <= |m'| && m'[..|m|] == m
  {
  }

  /** After a call the master's key set is the old key set plus the batch's keys. */
  lemma AssignIdsKeySet(f: Frame, m: Master, cols: seq<string>, idCol: string)
    requires idCol !in cols && IsRegistry(m, |cols|)
    requires AssignIds(f, m, cols, idCol).Ok?
    ensures Keys(AssignIds(f, m, cols, idCol).value.1) == Keys(m) + BatchKeySet(f, cols)
  {
    AssignIdsParts(f, m, cols, idCol);
    RegisterKeepsRegistry(f, m, cols);
  }

  /** The entries `Register` appends: ids |m| + 1 .. |m| + k, for the k distinct
      batch keys that the master did not know. */
  lemma RegisterNewIds(f: Frame, m: Master, cols: seq<string>)
    requires HasColumns(f, cols)
    ensures var m' := Register(f, m, cols);
      && |m'| == |m| + |BatchKeySet(f, cols) - Keys(m)|
      && (forall i :: |m| <= i < |m'| ==> m'[i].id == i + 1 && m'[i].key in BatchKeySet(f, cols) - Keys(m))
  {
    RegisterFacts(f, m, cols);
    var u := Unseen(Dedup(BatchKeys(f, cols)), Keys(m));
    assert Elements(u) == BatchKeySet(f, cols) - Keys(m);
    DistinctCard(u);
    var m' := Register(f, m, cols);
    assert m' == Numbered(m, u);
    forall i | |m| <= i < |m'| ensures m'[i].id == i + 1 && m'[i].key in BatchKeySet(f, cols) - Keys(m) {
      assert m'[i] == Entry(u[i - |m|], i + 1);
    }
  }

  /** The new ids are exactly |m| + 1 .. |m| + k, for the k distinct batch keys that
      the master did not know. */
  lemma AssignIdsNewIds(f: Frame, m: Master, cols: seq<string>, idCol: string)
    requires idCol !in cols
    requires AssignIds(f, m, cols, idCol).Ok?
    ensures var m' := AssignIds(f, m, cols, idCol).value.1;
      && |m'| == |m| + |BatchKeySet(f, cols) - Keys(m)|
      && (forall i :: |m| <= i < |m'| ==> m'[i].id == i + 1 && m'[i].key in BatchKeySet(f, cols) - Keys(m))
  {
    AssignIdsParts(f, m, cols, idCol);
    RegisterNewIds(f, m, cols);
  }

  /** The first index of k in ks. */
  function FirstIndex(ks: seq<Key>, k: Key): (i: nat)
    requires k in ks
    ensures i < |ks| && ks[i] == k
  {
    if ks[0] == k then 0 else 1 + FirstIndex(ks[1..], k)
  }

  /** No earlier position holds k. */
  lemma {:induction false} FirstIndexFirst(ks: seq<Key>, k: Key, j: nat)
    requires k in ks && j < FirstIndex(ks, k)
    ensures ks[j] != k
    decreases |ks|
  {
    if j > 0 {
      FirstIndexFirst(ks[1..], k, j - 1);
    }
  }

  /** The elements of s appear in ks, ordered by where each first occurs in ks. */
  predicate FirstSeenOrder(s: seq<Key>, ks: seq<Key>) {
    && (forall p :: 0 <= p < |s| ==> s[p] in ks)
    && (forall p, q :: 0 <= p < q < |s| ==> FirstIndex(ks, s[p]) < FirstIndex(ks, s[q]))
  }

  lemma FirstIndexExtend(ks: seq<Key>, x: Key, y: Key)
    requires y in ks
    ensures y in ks + [x] && FirstIndex(ks + [x], y) == FirstIndex(ks, y)
  {
    var a, b := FirstIndex(ks + [x], y), FirstIndex(ks, y);
    assert (ks + [x])[b] == ks[b];
    if b < a { FirstIndexFirst(ks + [x], y, b); }
    assert ks[a] == (ks + [x])[a];
    if a < b { FirstIndexFirst(ks, y, a); }
  }

  lemma {:induction false} DedupFirstSeen(ks: seq<Key>)
    ensures FirstSeenOrder(Dedup(ks), ks)
    decreases |ks|
  {
    if ks != [] {
      var init, x := ks[..|ks| - 1], ks[|ks| - 1];
      assert ks == init + [x];
      DedupFirstSeen(init);
      var d := Dedup(init);
      forall y | y in init ensures FirstIndex(ks, y) == FirstIndex(init, y) {
        FirstIndexExtend(init, x, y);
      }
      if x !in d {
        assert x !in init;
        assert FirstIndex(ks, x) == |init|;
        var d' := d + [x];
        forall p, q | 0 <= p < q < |d'| ensures FirstIndex(ks, d'[p]) < FirstIndex(ks, d'[q]) {
          assert d'[p] == d[p] && d[p] in init;
          if q < |d| { assert d'[q] == d[q]; }
        }
      }
    }
  }

  lemma FirstSeenTail(ds: seq<Key>, ks: seq<Key>)
    requires ds != [] && FirstSeenOrder(ds, ks)
    ensures FirstSeenOrder(ds[1..], ks)
  {
    forall p, q | 0 <= p < q < |ds[1..]| ensures FirstIndex(ks, ds[1..][p]) < FirstIndex(ks, ds[1..][q]) {
      assert ds[1..][p] == ds[p + 1] && ds[1..][q] == ds[q + 1];
    }
  }

  lemma FirstSeenHead(ds: seq<Key>, ks: seq<Key>, k: Key)
    requires ds != [] && FirstSeenOrder(ds, ks) && k in ds[1..]
    ensures FirstIndex(ks, ds[0]) < FirstIndex(ks, k)
  {
    var q :| 0 <= q < |ds[1..]| && ds[1..][q] == k;
    assert ds[q + 1] == k;
  }

  lemma FirstSeenCons(x: Key, rest: seq<Key>, ks: seq<Key>)
    requires x in ks && FirstSeenOrder(rest, ks)
    requires forall p :: 0 <= p < |rest| ==> FirstIndex(ks, x) < FirstIndex(ks, rest[p])
    ensures FirstSeenOrder([x] + rest, ks)
  {
    var u := [x] + rest;
    assert forall p :: 0 < p < |u| ==> u[p] == rest[p - 1];
    assert forall p :: 0 <= p < |u| ==> u[p] in ks;
    assert forall q :: 0 < q < |u| ==> FirstIndex(ks, u[0]) < FirstIndex(ks, u[q]);
    assert forall p, q :: 0 < p < q < |u| ==> FirstIndex(ks, u[p]) < FirstIndex(ks, u[q]);
  }

  lemma {:induction false} UnseenFirstSeen(ds: seq<Key>, known: set<Key>, ks: seq<Key>)
    requires FirstSeenOrder(ds, ks)
    ensures FirstSeenOrder(Unseen(ds, known), ks)
    decreases |ds|
  {
    if ds != [] {
      FirstSeenTail(ds, ks);
      UnseenFirstSeen(ds[1..], known, ks);
      var rest := Unseen(ds[1..], known);
      if ds[0] !in known {
        forall p | 0 <= p < |rest| ensures FirstIndex(ks, ds[0]) < FirstIndex(ks, rest[p]) {
          FirstSeenHead(ds, ks, rest[p]);
        }
        FirstSeenCons(ds[0], rest, ks);
      }
    }
  }

  lemma RegisterFirstSeenOrder(f: Frame, m: Master, cols: seq<string>)
    requires HasColumns(f, cols)
    ensures var m' := Register(f, m, cols);
      var bk := BatchKeys(f, cols);
      && |m'| >= |m|
      && (forall p :: |m| <= p < |m'| ==> m'[p].key in bk)
      && (forall p, q :: |m| <= p < q < |m'| ==> FirstIndex(bk, m'[p].key) < FirstIndex(bk, m'[q].key))
  {
    var bk := BatchKeys(f, cols);
    DedupFirstSeen(bk);
    UnseenFirstSeen(Dedup(bk), Keys(m), bk);
    NumberedFirstSeen(m, Unseen(Dedup(bk), Keys(m)), bk);
  }

  lemma NumberedFirstSeen(m: Master, u: seq<Key>, ks: seq<Key>)
    requires FirstSeenOrder(u, ks)
    ensures var m' := Numbered(m, u);
      && |m'| >= |m|
      && (forall p :: |m| <= p < |m'| ==> m'[p].key in ks)
      && (forall p, q :: |m| <= p < q < |m'| ==> FirstIndex(ks, m'[p].key) < FirstIndex(ks, m'[q].key))
  {
    var m' := Numbered(m, u);
    assert forall p :: |m| <= p < |m'| ==> m'[p].key == u[p - |m|];
  }

  /** New keys are numbered in the order they first occur in the batch. */
  lemma AssignIdsFirstSeenOrder(f: Frame, m: Master, cols: seq<string>, idCol: string)
    requires idCol !in cols
    requires AssignIds(f, m, cols, idCol).Ok?
    ensures var m' := AssignIds(f, m, cols, idCol).value.1;
      var bk := BatchKeys(f, cols);
      && |m'| >= |m|
      && (forall p :: |m| <= p < |m'| ==> m'[p].key in bk)
      && (forall p, q :: |m| <= p < q < |m'| ==> FirstIndex(bk, m'[p].key) < FirstIndex(bk, m'[q].key))
  {
    AssignIdsParts(f, m, cols, idCol);
    RegisterFirstSeenOrder(f, m, cols);
  }

  lemma {:induction false} UnseenAllKnown(ds: seq<Key>, known: set<Key>)
    requires forall k :: k in ds ==> k in known
    ensures Unseen(ds, known) == []
    decreases |ds|
  {
    if ds != [] {
      assert ds[0] in known;
      UnseenAllKnown(ds[1..], known);
    }
  }

  /** Resolving the same batch against the returned master adds nothing and joins
      the same ids: `assign_ids` is idempotent. */
  lemma AssignIdsIdempotent(f: Frame, m: Master, cols: seq<string>, idCol: string)
    requires idCol !in cols && IsRegistry(m, |cols|)
    requires AssignIds(f, m, cols, idCol).Ok?
    ensures var r := AssignIds(f, m, cols, idCol).value;
      AssignIds(f, r.1, cols, idCol) == Ok(r)
  {
    AssignIdsParts(f, m, cols, idCol);
    AssignIdsKeySet(f, m, cols, idCol);
    var m' := Register(f, m, cols);
    UnseenAllKnown(Dedup(BatchKeys(f, cols)), Keys(m'));
    assert Register(f, m', cols) == m';
  }

  lemma {:induction false} UniqueMatch(m: Master, i: nat)
    requires UniqueKeys(m) && i < |m|
    ensures Matches(m, m[i].key) == [m[i].id]
    decreases |m|
  {
    assert UniqueKeys(m[1..]) by {
      forall p, q | 0 <= p < q < |m[1..]| ensures m[1..][p].key != m[1..][q].key {
        assert m[1..][p] == m[p + 1] && m[1..][q] == m[q + 1];
      }
    }
    if i == 0 {
      NoMatch(m[1..], m[0].key);
    } else {
      assert m[1..][i - 1] == m[i];
      UniqueMatch(m[1..], i - 1);
    }
  }

  lemma {:induction false} NoMatch(m: Master, k: Key)
    requires forall i :: 0 <= i < |m| ==> m[i].key != k
    ensures Matches(m, k) == []
    decreases |m|
  {
    if m != [] {
      assert forall i :: 0 <= i < |m[1..]| ==> m[1..][i] == m[i + 1];
      NoMatch(m[1..], k);
    }
  }

  /** The position of the first master entry with key k. */
  function Position(m: Master, k: Key): (p: nat)
    requires k in Keys(m)
    ensures p < |m| && m[p].key == k
    ensures forall j :: 0 <= j < p ==> m[j].key != k
  {
    if m[0].key == k then 0
    else
      assert k in Keys(m[1..]) by {
        var i :| 0 <= i < |m| && m[i].key == k;
        assert m[1..][i - 1] == m[i];
      }
      1 + Position(m[1..], k)
  }

  /** The row a left join against a master that knows the row's key produces. */
  function Joined(r: Row, m: Master, cols: seq<string>, idCol: string, clash: bool): Row
    requires RowHas(r, cols) && (clash ==> idCol in r) && KeyOf(r, cols) in Keys(m)
  {
    Attach(r, idCol, Num(m[Position(m, KeyOf(r, cols))].id), clash)
  }

  /** A row whose key the unique master knows joins to exactly one row. */
  lemma JoinRowKnown(r: Row, m: Master, cols: seq<string>, idCol: string, clash: bool)
    requires RowHas(r, cols) && (clash ==> idCol in r)
    requires UniqueKeys(m) && KeyOf(r, cols) in Keys(m)
    ensures JoinRow(r, m, cols, idCol, clash) == [Joined(r, m, cols, idCol, clash)]
  {
    UniqueMatch(m, Position(m, KeyOf(r, cols)));
  }

  /** The rows a left join produces when every row's key is known: one per row, in place. */
  function JoinedRows(rows: seq<Row>, m: Master, cols: seq<string>, idCol: string, clash: bool): seq<Row>
    requires forall i :: 0 <= i < |rows| ==> RowHas(rows[i], cols) && (clash ==> idCol in rows[i])
    requires forall i :: 0 <= i < |rows| ==> KeyOf(rows[i], cols) in Keys(m)
  {
    seq(|rows|, i requires 0 <= i < |rows| => Joined(rows[i], m, cols, idCol, clash))
  }

  lemma JoinedRowsCons(rows: seq<Row>, m: Master, cols: seq<string>, idCol: string, clash: bool)
    requires rows != []
    requires forall i :: 0 <= i < |rows| ==> RowHas(rows[i], cols) && (clash ==> idCol in rows[i])
    requires forall i :: 0 <= i < |rows| ==> KeyOf(rows[i], cols) in Keys(m)
    ensures JoinedRows(rows, m, cols, idCol, clash)
              == [Joined(rows[0], m, cols, idCol, clash)] + JoinedRows(rows[1..], m, cols, idCol, clash)
  {
    var all, rest := JoinedRows(rows, m, cols, idCol, clash), JoinedRows(rows[1..], m, cols, idCol, clash);
    forall i | 0 < i < |rows| ensures all[i] == rest[i - 1] {
      assert rows[1..][i - 1] == rows[i];
    }
  }

  lemma {:induction false} JoinRowsUnique(rows: seq<Row>, m: Master, cols: seq<string>, idCol: string, clash: bool)
    requires forall i :: 0 <= i < |rows| ==> RowHas(rows[i], cols) && (clash ==> idCol in rows[i])
    requires UniqueKeys(m)
    requires forall i :: 0 <= i < |rows| ==> KeyOf(rows[i], cols) in Keys(m)
    ensures JoinRows(rows, m, cols, idCol, clash) == JoinedRows(rows, m, cols, idCol, clash)
    decreases |rows|
  {
    if rows != [] {
      var tail := rows[1..];
      assert forall i :: 0 <= i < |tail| ==> tail[i] == rows[i + 1];
      JoinRowsUnique(tail, m, cols, idCol, clash);
      JoinRowKnown(rows[0], m, cols, idCol, clash);
      JoinedRowsCons(rows, m, cols, idCol, clash);
    }
  }

  /** A left join against a master that is unique by key and knows every batch key
      keeps the batch's rows in place, one output row per input row. */
  lemma JoinAllKnown(f: Frame, m: Master, cols: seq<string>, idCol: string)
    requires HasColumns(f, cols) && UniqueKeys(m)
    requires BatchKeySet(f, cols) <= Keys(m)
    requires Join(f, m, cols, idCol).Ok?
    ensures var j := Join(f, m, cols, idCol).value;
      && j.columns == JoinColumns(f.columns, idCol)
      && |j.rows| == |f.rows|
      && forall i :: 0 <= i < |f.rows| ==>
           RowHas(f.rows[i], cols) && KeyOf(f.rows[i], cols) in Keys(m)
           && j.rows[i] == Joined(f.rows[i], m, cols, idCol, idCol in f.columns)
  {
    var bk := BatchKeys(f, cols);
    assert forall i :: 0 <= i < |f.rows| ==> KeyOf(f.rows[i], cols) == bk[i] && bk[i] in Elements(bk);
    var clash := idCol in f.columns;
    assert forall i :: 0 <= i < |f.rows| ==> (clash ==> idCol in f.rows[i]);
    JoinRowsUnique(f.rows, m, cols, idCol, clash);
  }

  /** The join against the master a call registers is total and keeps rows in
      place: the batch keeps its row count and order, and every row carries the id
      of the master entry with its key, which the master knows. This rests on the
      master being unique by key and on every batch key having been registered
      first. */
  lemma RegisterJoin(f: Frame, m: Master, cols: seq<string>, idCol: string)
    requires HasColumns(f, cols) && IsRegistry(m, |cols|)
    requires Join(f, Register(f, m, cols), cols, idCol).Ok?
    ensures var m' := Register(f, m, cols);
      var j := Join(f, m', cols, idCol).value;
      && j.columns == JoinColumns(f.columns, idCol)
      && |j.rows| == |f.rows|
      && forall i :: 0 <= i < |f.rows| ==>
           RowHas(f.rows[i], cols) && KeyOf(f.rows[i], cols) in Keys(m')
           && j.rows[i] == Joined(f.rows[i], m', cols, idCol, idCol in f.columns)
  {
    RegisterKeepsRegistry(f, m, cols);
    JoinAllKnown(f, Register(f, m, cols), cols, idCol);
  }

  /** In a dense master the id a row is joined to is its key's position plus one. */
  lemma JoinedDense(r: Row, m: Master, cols: seq<string>, idCol: string, clash: bool)
    requires RowHas(r, cols) && (clash ==> idCol in r) && KeyOf(r, cols) in Keys(m) && Dense(m)
    ensures Joined(r, m, cols, idCol, clash) == Attach(r, idCol, Num(Position(m, KeyOf(r, cols)) + 1), clash)
  {
    var p := Position(m, KeyOf(r, cols));
    assert m[p].id == p + 1;
  }

  /** Where the id lands in a joined row. */
  lemma AttachedId(r: Row, idCol: string, v: Cell, clash: bool)
    requires clash ==> idCol in r
    ensures var out := IdLanding(idCol, clash);
      out in Attach(r, idCol, v, clash) && Attach(r, idCol, v, clash)[out] == v
  {
  }

  lemma JoinSameKeySameId(f: Frame, m: Master, cols: seq<string>, idCol: string, i: nat, i': nat)
    requires HasColumns(f, cols) && UniqueKeys(m) && Dense(m)
    requires BatchKeySet(f, cols) <= Keys(m)
    requires Join(f, m, cols, idCol).Ok?
    requires i < |f.rows| && i' < |f.rows|
    ensures var j := Join(f, m, cols, idCol).value;
      var out := IdLanding(idCol, idCol in f.columns);
      |j.rows| == |f.rows| && out in j.rows[i] && out in j.rows[i'] &&
      (j.rows[i][out] == j.rows[i'][out] <==> KeyOf(f.rows[i], cols) == KeyOf(f.rows[i'], cols))
  {
    JoinAllKnown(f, m, cols, idCol);
    var clash := idCol in f.columns;
    var k, k' := KeyOf(f.rows[i], cols), KeyOf(f.rows[i'], cols);
    var p, p' := Position(m, k), Position(m, k');
    AttachedId(f.rows[i], idCol, Num(m[p].id), clash);
    AttachedId(f.rows[i'], idCol, Num(m[p'].id), clash);
  }

  /** Rows with equal keys get equal ids, and rows with different keys different ids. */
  lemma AssignIdsSameKeySameId(f: Frame, m: Master, cols: seq<string>, idCol: string, i: nat, i': nat)
    requires idCol !in cols && IsRegistry(m, |cols|)
    requires AssignIds(f, m, cols, idCol).Ok?
    requires i < |f.rows| && i' < |f.rows|
    ensures var j := AssignIds(f, m, cols, idCol).value.0;
      var out := IdLanding(idCol, idCol in f.columns);
      |j.rows| == |f.rows| && out in j.rows[i] && out in j.rows[i'] &&
      (j.rows[i][out] == j.rows[i'][out] <==> KeyOf(f.rows[i], cols) == KeyOf(f.rows[i'], cols))
  {
    AssignIdsParts(f, m, cols, idCol);
    AssignIdsKeepsRegistry(f, m, cols, idCol);
    AssignIdsKeySet(f, m, cols, idCol);
    JoinSameKeySameId(f, Register(f, m, cols), cols, idCol, i, i');
  }

  /** A call leaves every cell outside the id column and its suffixed names as it
      was, row by row, and neither adds nor removes such a column. */
  lemma AssignIdsKeepsCell(f: Frame, m: Master, cols: seq<string>, idCol: string, c: string, i: nat)
    requires idCol !in cols && IsRegistry(m, |cols|)
    requires AssignIds(f, m, cols, idCol).Ok?
    requires c != idCol && c != SuffixX(idCol) && c != SuffixY(idCol) && i < |f.rows|
    ensures var j := AssignIds(f, m, cols, idCol).value.0;
      && |j.rows| == |f.rows| && (c in j.columns <==> c in f.columns)
      && (c in f.columns ==> c in j.rows[i] && j.rows[i][c] == f.rows[i][c])
  {
    AssignIdsParts(f, m, cols, idCol);
    RegisterJoin(f, m, cols, idCol);
    JoinColumnsKeep(f.columns, idCol, c);
    assert c in f.rows[i] <==> c in ColumnSet(f.columns);
  }

  lemma JoinColumnsKeep(cols: seq<string>, idCol: string, c: string)
    requires c != idCol && c != SuffixX(idCol) && c != SuffixY(idCol)
    ensures c in JoinColumns(cols, idCol) <==> c in cols
  {
    if idCol in cols {
      var r := Rename(cols, idCol, SuffixX(idCol));
      assert c in r <==> c in ColumnSet(r);
      assert c in cols <==> c in ColumnSet(cols);
      assert JoinColumns(cols, idCol) == r + [SuffixY(idCol)];
    }
  }

  /** After a call the batch has a column named like the id column exactly when
      it had none before: a clash moves both to their suffixed names. */
  lemma AssignIdsIdColumn(f: Frame, m: Master, cols: seq<string>, idCol: string)
    requires idCol !in cols && IsRegistry(m, |cols|)
    requires AssignIds(f, m, cols, idCol).Ok?
    ensures idCol in AssignIds(f, m, cols, idCol).value.0.columns <==> idCol !in f.columns
  {
    AssignIdsParts(f, m, cols, idCol);
    var j := AssignIds(f, m, cols, idCol).value.0;
    assert |SuffixX(idCol)| != |idCol| && |SuffixY(idCol)| != |idCol|;
    assert idCol in j.columns <==> idCol in ColumnSet(j.columns);
  }

  /** A batch with `<id>` and `<id>_y` but no `<id>_x` joins: its `<id>` moves to
      `<id>_x`, the master's id takes the `_y` name, and no `<id>` is left. */
  lemma JoinOverBatchIdY(f: Frame, m: Master, cols: seq<string>, idCol: string, i: nat)
    requires idCol !in cols && IsRegistry(m, |cols|) && HasColumns(f, cols)
    requires idCol in f.columns && SuffixY(idCol) in f.columns && SuffixX(idCol) !in f.columns
    requires i < |f.rows|
    ensures AssignIds(f, m, cols, idCol).Ok?
    ensures var j := AssignIds(f, m, cols, idCol).value.0;
      && idCol !in j.columns && SuffixX(idCol) in j.columns && SuffixY(idCol) in j.columns
      && |j.rows| == |f.rows| && j.rows[i][SuffixY(idCol)].Num?
  {
    AssignIdsParts(f, m, cols, idCol);
    AssignIdsIdColumn(f, m, cols, idCol);
    AssignIdsKeepsRegistry(f, m, cols, idCol);
    AssignIdsKeySet(f, m, cols, idCol);
    RegisterJoin(f, m, cols, idCol);
    var j := AssignIds(f, m, cols, idCol).value.0;
    assert JoinColumns(f.columns, idCol) == Rename(f.columns, idCol, SuffixX(idCol)) + [SuffixY(idCol)];
    assert SuffixX(idCol) in ColumnSet(Rename(f.columns, idCol, SuffixX(idCol)));
  }

  /** A dense master's ids are exactly 1 .. n, without gaps or repeats. */
  lemma DenseIds(m: Master)
    requires Dense(m)
    ensures forall i :: i in Ids(m) <==> 1 <= i <= |m|
  {
    forall i | 1 <= i <= |m| ensures i in Ids(m) {
      assert m[i - 1].id == i;
    }
  }
}
