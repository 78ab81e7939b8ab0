/**
 * `parse_to_json` (code/utils/make_dataset.py): turns per-document key/value records
 * into a column-oriented table, a `defaultdict(list)` from column name to values.
 *
 * The text cleaner (`clean_raw_text`, a wrapper over an external library) is the
 * parameter `clean`. The iteration order of the set `raw_data.keys() & column_to_parse`
 * depends on string hashing; it is the parameter `order`, which must list each such
 * set exactly once.
 */
module Dataset {
  import opened Wrappers
  import opened Strings
  import opened Seqs

  /** One input file: its path and the parsed JSON object, with string values. */
  datatype Document = Document(path: string, record: map<string, string>)

  /** An insertion-ordered dict, as `filter_data` is: a sequence of key/value entries. */
  type Entries = seq<(string, string)>

  /** No key occurs twice. */
  predicate Distinct(ks: seq<string>)
  {
    forall i, j :: 0 <= i < j < |ks| ==> ks[i] != ks[j]
  }

  /** `ks` enumerates the set `s`, each element once. */
  predicate Lists(ks: seq<string>, s: set<string>)
  {
    Distinct(ks) && (forall k <- ks :: k in s) && (forall k <- s :: k in ks)
  }

  function Keys(e: Entries): seq<string>
  {
    seq(|e|, i requires 0 <= i < |e| => e[i].0)
  }

  function Values(e: Entries): seq<string>
  {
    seq(|e|, i requires 0 <= i < |e| => e[i].1)
  }

  /** Dict lookup: `e[k]` if present. */
  function Get(e: Entries, k: string): (v: Option<string>)
    ensures v.Some? <==> k in Keys(e)
  {
    if |e| == 0 then None
    else
      assert Keys(e) == [e[0].0] + Keys(e[1..]);
      if e[0].0 == k then Some(e[0].1)
      else Get(e[1..], k)
  }

  /** Dict assignment `e[k] = v`: replaces the value in place, or appends a new entry. */
  function Put(e: Entries, k: string, v: string): (r: Entries)
    ensures Keys(r) == if k in Keys(e) then Keys(e) else Keys(e) + [k]
    ensures forall k' :: Get(r, k') == if k' == k then Some(v) else Get(e, k')
  {
    if |e| == 0 then [(k, v)]
    else if e[0].0 == k then
      var r := [(k, v)] + e[1..];
      assert Keys(e) == [k] + Keys(e[1..]);
      assert Keys(r) == [k] + Keys(e[1..]);
      assert r[1..] == e[1..];
      r
    else
      var rest := Put(e[1..], k, v);
      var r := [e[0]] + rest;
      assert Keys(e) == [e[0].0] + Keys(e[1..]);
      assert Keys(r) == [e[0].0] + Keys(rest);
      assert r[1..] == rest;
      r
  }

  /** Assigning a key keeps a dict's keys distinct. */
  lemma PutDistinct(e: Entries, k: string, v: string)
    requires Distinct(Keys(e))
    ensures Distinct(Keys(Put(e, k, v)))
  {
    var ks := Keys(e);
    if k !in ks {
      forall i, j | 0 <= i < j < |ks| + 1 ensures (ks + [k])[i] != (ks + [k])[j] {
        if j == |ks| {
          assert ks[i] in ks;
        }
      }
    }
  }

  /** The selected keys of `raw`, in the order `ks`, each with its cleaned value. */
  function Cleaned(raw: map<string, string>, ks: seq<string>, clean: string -> string): Entries
    requires forall k <- ks :: k in raw
  {
    seq(|ks|, i requires 0 <= i < |ks| => (ks[i], clean(raw[ks[i]])))
  }

  /** The keys of one record that `parse_to_json` keeps: those also in the allow-list. */
  function Selected(raw: map<string, string>, allow: set<string>): set<string>
  {
    raw.Keys * allow
  }

  /**
   * `filter_data` (lines 25-29): every key of `raw` also in `allow`, with its cleaned
   * value, in set-iteration order; with `isMerge`, then `filter_data['merge']` is set
   * to the space-joined values.
   */
  function FilterData(raw: map<string, string>, allow: set<string>, isMerge: bool,
                      clean: string -> string, order: set<string> -> seq<string>): (e: Entries)
    requires Lists(order(Selected(raw, allow)), Selected(raw, allow))
    ensures Distinct(Keys(e))
    ensures forall k :: k in Keys(e) <==> (k in raw && k in allow) || (isMerge && k == "merge")
    ensures forall k :: k in raw && k in allow && !(isMerge && k == "merge") ==>
      Get(e, k) == Some(clean(raw[k]))
    ensures isMerge ==>
      Get(e, "merge") == Some(Join(" ", Values(Cleaned(raw, order(Selected(raw, allow)), clean))))
    ensures Keys(e) == order(Selected(raw, allow)) + (if isMerge && "merge" !in Selected(raw, allow) then ["merge"] else [])
  {
    var ks := order(Selected(raw, allow));
    var c := Cleaned(raw, ks, clean);
    assert Keys(c) == ks;
    CleanedGet(raw, ks, clean);
    if isMerge then
      PutDistinct(c, "merge", Join(" ", Values(c)));
      Put(c, "merge", Join(" ", Values(c)))
    else c
  }

  /** Each selected key reads as its cleaned raw value. */
  lemma {:induction false} CleanedGet(raw: map<string, string>, ks: seq<string>, clean: string -> string)
    requires forall k <- ks :: k in raw
    requires Distinct(ks)
    ensures forall k <- ks :: Get(Cleaned(raw, ks, clean), k) == Some(clean(raw[k]))
  {
    if |ks| > 0 {
      CleanedGet(raw, ks[1..], clean);
      assert Cleaned(raw, ks, clean)[1..] == Cleaned(raw, ks[1..], clean);
    }
  }

  /** `json_data`: the column order of the dict (first insertion) and the lists themselves. */
  datatype Table = Table(order: seq<string>, cols: map<string, seq<string>>)

  /** A dict's key order lists its keys, each once. */
  predicate WfTable(t: Table)
  {
    Distinct(t.order) && (forall k <- t.order :: k in t.cols) && (forall k <- t.cols :: k in t.order)
  }

  /** Every list in the table holds at least one value: lists are only created by an append. */
  predicate Grown(t: Table)
  {
    forall k <- t.cols :: |t.cols[k]| > 0
  }

  /** Reading `json_data[k]`: a missing key reads as the empty list. */
  function Column(t: Table, k: string): seq<string>
  {
    if k in t.cols then t.cols[k] else []
  }

  const Empty := Table([], map[])

  /** `json_data[k].append(v)`. */
  function Append(t: Table, k: string, v: string): (r: Table)
    ensures forall k' :: Column(r, k') == Column(t, k') + (if k' == k then [v] else [])
    ensures WfTable(t) ==> WfTable(r)
    ensures Grown(t) ==> Grown(r)
    ensures r.order == if k in t.cols then t.order else t.order + [k]
  {
    if k in t.cols then Table(t.order, t.cols[k := t.cols[k] + [v]])
    else Table(t.order + [k], t.cols[k := [v]])
  }

  /** The loop at lines 31-32: append each entry's value to its key's list, in entry order. */
  function AppendAll(t: Table, e: Entries): Table
    decreases |e|
  {
    if |e| == 0 then t else AppendAll(Append(t, e[0].0, e[0].1), e[1..])
  }

  /** Every record's selected keys are listed by `order`. */
  predicate AllListed(docs: seq<Document>, allow: set<string>, order: set<string> -> seq<string>)
  {
    forall d <- docs :: Lists(order(Selected(d.record, allow)), Selected(d.record, allow))
  }

  /** The first document's selected keys are listed, and so are the rest's. */
  lemma AllListedTail(docs: seq<Document>, allow: set<string>, order: set<string> -> seq<string>)
    requires |docs| > 0 && AllListed(docs, allow, order)
    ensures Lists(order(Selected(docs[0].record, allow)), Selected(docs[0].record, allow))
    ensures AllListed(docs[1..], allow, order)
  {
    assert docs[0] in docs;
    forall d <- docs[1..] ensures d in docs { }
  }

  /** One iteration of the outer loop (lines 16-32). */
  function AddDocument(t: Table, d: Document, allow: set<string>, isMerge: bool,
                       clean: string -> string, order: set<string> -> seq<string>): Table
    requires Lists(order(Selected(d.record, allow)), Selected(d.record, allow))
  {
    AppendAll(Append(t, "id", DocId(d.path)), FilterData(d.record, allow, isMerge, clean, order))
  }

  /** The outer loop from table `t` over `docs`. */
  function ParseFrom(t: Table, docs: seq<Document>, allow: set<string>, isMerge: bool,
                     clean: string -> string, order: set<string> -> seq<string>): Table
    requires AllListed(docs, allow, order)
    decreases |docs|
  {
    if |docs| == 0 then t
    else ParseFrom(AddDocument(t, docs[0], allow, isMerge, clean, order), docs[1..],
                   allow, isMerge, clean, order)
  }

  /** The table `parse_to_json` returns. */
  function Parse(docs: seq<Document>, allow: set<string>, isMerge: bool,
                 clean: string -> string, order: set<string> -> seq<string>): Table
    requires AllListed(docs, allow, order)
  {
    ParseFrom(Empty, docs, allow, isMerge, clean, order)
  }

  /** `parse_to_json` (lines 7-34), as the loops it runs. */
  method ParseToJson(docs: seq<Document>, allow: set<string>, isMerge: bool,
                     clean: string -> string, order: set<string> -> seq<string>)
    returns (t: Table)
    requires AllListed(docs, allow, order)
    ensures t == Parse(docs, allow, isMerge, clean, order)
    ensures WfTable(t) && Grown(t)
  {
    t := Empty;
    var i := 0;
    while i < |docs|
      invariant 0 <= i <= |docs|
      invariant ParseFrom(t, docs[i..], allow, isMerge, clean, order) == Parse(docs, allow, isMerge, clean, order)
      invariant WfTable(t) && Grown(t)
    {
      var d := docs[i];
      assert d in docs;
      t := Append(t, "id", DocId(d.path));
      var filterData := FilterData(d.record, allow, isMerge, clean, order);
      t := AppendEntries(t, filterData);
      assert docs[i..][1..] == docs[i + 1..];
      i := i + 1;
    }
  }

  /** The loop at lines 31-32: `json_data[k].append(v)` for each entry of `filter_data`. */
  method AppendEntries(t0: Table, e: Entries) returns (t: Table)
    requires WfTable(t0) && Grown(t0)
    ensures t == AppendAll(t0, e)
    ensures WfTable(t) && Grown(t)
  {
    t := t0;
    var j := 0;
    while j < |e|
      invariant 0 <= j <= |e|
      invariant AppendAll(t, e[j..]) == AppendAll(t0, e)
      invariant WfTable(t) && Grown(t)
    {
      assert e[j..][1..] == e[j + 1..];
      t := Append(t, e[j].0, e[j].1);
      j := j + 1;
    }
    assert e[j..] == [];
  }

  /** What one document appends to the list of key `k`: its id, then its own value for `k`. */
  function Contribution(d: Document, k: string, allow: set<string>, isMerge: bool,
                        clean: string -> string, order: set<string> -> seq<string>): seq<string>
    requires Lists(order(Selected(d.record, allow)), Selected(d.record, allow))
  {
    (if k == "id" then [DocId(d.path)] else [])
    + AsList(Get(FilterData(d.record, allow, isMerge, clean, order), k))
  }

  /** What the documents add to `k`'s list, in document order. */
  function Contributions(docs: seq<Document>, k: string, allow: set<string>, isMerge: bool,
                         clean: string -> string, order: set<string> -> seq<string>): seq<string>
    requires AllListed(docs, allow, order)
  {
    if |docs| == 0 then []
    else Contribution(docs[0], k, allow, isMerge, clean, order)
         + Contributions(docs[1..], k, allow, isMerge, clean, order)
  }

  /** Appending a dict's entries adds each of its values to exactly its own key's list. */
  lemma {:induction false} AppendAllColumn(t: Table, e: Entries, k: string)
    requires Distinct(Keys(e))
    ensures Column(AppendAll(t, e), k) == Column(t, k) + AsList(Get(e, k))
    decreases |e|
  {
    if |e| > 0 {
      KeysTail(e);
      var t1 := Append(t, e[0].0, e[0].1);
      AppendAllColumn(t1, e[1..], k);
      if e[0].0 == k {
        assert Get(e[1..], k) == None;
      }
    }
  }

  /** The keys of a dict's tail: distinct when the dict's are, and without its first key. */
  lemma KeysTail(e: Entries)
    requires |e| > 0 && Distinct(Keys(e))
    ensures Distinct(Keys(e[1..])) && e[0].0 !in Keys(e[1..])
  {
    assert forall i :: 0 <= i < |e| - 1 ==> Keys(e[1..])[i] == Keys(e)[i + 1];
    forall i | 0 <= i < |e| - 1
      ensures Keys(e[1..])[i] != e[0].0
    {
      assert Keys(e)[0] != Keys(e)[i + 1];
    }
  }

  /** A present value as a one-element list, an absent one as the empty list. */
  function AsList(o: Option<string>): seq<string>
  {
    match o
    case Some(v) => [v]
    case None => []
  }

  /**
   * Column accumulation (lines 14, 19, 31-32): after the loop, the list of every key is
   * the concatenation, in document order, of what each document contributes to it.
   */
  lemma {:induction false} ParseColumns(t: Table, docs: seq<Document>, k: string, allow: set<string>,
                                        isMerge: bool, clean: string -> string,
                                        order: set<string> -> seq<string>)
    requires AllListed(docs, allow, order)
    ensures Column(ParseFrom(t, docs, allow, isMerge, clean, order), k) ==
      Column(t, k) + Contributions(docs, k, allow, isMerge, clean, order)
    decreases |docs|
  {
    if |docs| > 0 {
      AllListedTail(docs, allow, order);
      var t2 := AddDocument(t, docs[0], allow, isMerge, clean, order);
      var c0 := Contribution(docs[0], k, allow, isMerge, clean, order);
      var cs := Contributions(docs[1..], k, allow, isMerge, clean, order);
      assert Column(ParseFrom(t2, docs[1..], allow, isMerge, clean, order), k) == Column(t2, k) + cs by {
        ParseColumns(t2, docs[1..], k, allow, isMerge, clean, order);
      }
      assert Column(t2, k) == Column(t, k) + c0 by {
        AddDocumentColumn(t, docs[0], k, allow, isMerge, clean, order);
      }
      calc {
        Column(ParseFrom(t, docs, allow, isMerge, clean, order), k);
        Column(ParseFrom(t2, docs[1..], allow, isMerge, clean, order), k);
        Column(t, k) + c0 + cs;
        { Assoc(Column(t, k), c0, cs); }
        Column(t, k) + (c0 + cs);
        Column(t, k) + Contributions(docs, k, allow, isMerge, clean, order);
      }
    }
  }

  /** One document appends its id to `id`, then each `filter_data` value to its own key. */
  lemma AddDocumentColumn(t: Table, d: Document, k: string, allow: set<string>, isMerge: bool,
                          clean: string -> string, order: set<string> -> seq<string>)
    requires Lists(order(Selected(d.record, allow)), Selected(d.record, allow))
    ensures Column(AddDocument(t, d, allow, isMerge, clean, order), k) ==
      Column(t, k) + Contribution(d, k, allow, isMerge, clean, order)
  {
    var e := FilterData(d.record, allow, isMerge, clean, order);
    AppendAllColumn(Append(t, "id", DocId(d.path)), e, k);
    Assoc(Column(t, k), if k == "id" then [DocId(d.path)] else [], AsList(Get(e, k)));
  }

  /** The ids of the documents, in path order. */
  function Ids(docs: seq<Document>): seq<string>
  {
    seq(|docs|, i requires 0 <= i < |docs| => DocId(docs[i].path))
  }

  /** Number of documents whose `filter_data` has key `k`. */
  function Having(docs: seq<Document>, k: string, allow: set<string>, isMerge: bool,
                  clean: string -> string, order: set<string> -> seq<string>): nat
    requires AllListed(docs, allow, order)
  {
    if |docs| == 0 then 0
    else (if k in Keys(FilterData(docs[0].record, allow, isMerge, clean, order)) then 1 else 0)
         + Having(docs[1..], k, allow, isMerge, clean, order)
  }

  /**
   * When `id` is not an allowed key, `json_data['id']` is exactly the documents' ids,
   * one per path, in path order.
   */
  lemma {:induction false} IdColumn(docs: seq<Document>, allow: set<string>, isMerge: bool,
                                    clean: string -> string, order: set<string> -> seq<string>)
    requires AllListed(docs, allow, order)
    requires "id" !in allow
    ensures Column(Parse(docs, allow, isMerge, clean, order), "id") == Ids(docs)
  {
    ParseColumns(Empty, docs, "id", allow, isMerge, clean, order);
    IdContributions(docs, allow, isMerge, clean, order);
  }

  /** With `id` not an allowed key, the documents add exactly their ids to the `id` list. */
  lemma {:induction false} IdContributions(docs: seq<Document>, allow: set<string>, isMerge: bool,
                                           clean: string -> string, order: set<string> -> seq<string>)
    requires AllListed(docs, allow, order)
    requires "id" !in allow
    ensures Contributions(docs, "id", allow, isMerge, clean, order) == Ids(docs)
  {
    if |docs| > 0 {
      AllListedTail(docs, allow, order);
      IdContributions(docs[1..], allow, isMerge, clean, order);
      IdContribution(docs[0], allow, isMerge, clean, order);
      assert Ids(docs) == [DocId(docs[0].path)] + Ids(docs[1..]);
    }
  }

  /** A single document contributes just its id to the `id` list. */
  lemma IdContribution(d: Document, allow: set<string>, isMerge: bool,
                       clean: string -> string, order: set<string> -> seq<string>)
    requires Lists(order(Selected(d.record, allow)), Selected(d.record, allow))
    requires "id" !in allow
    ensures Contribution(d, "id", allow, isMerge, clean, order) == [DocId(d.path)]
  {
    var e := FilterData(d.record, allow, isMerge, clean, order);
    assert "id" !in Keys(e);
    assert Get(e, "id") == None;
  }

  /**
   * Every key other than `id` gets one value per document whose `filter_data` has that key,
   * so its list is never longer than the number of documents.
   */
  lemma {:induction false} ColumnLength(docs: seq<Document>, k: string, allow: set<string>, isMerge: bool,
                                        clean: string -> string, order: set<string> -> seq<string>)
    requires AllListed(docs, allow, order)
    requires k != "id"
    ensures |Column(Parse(docs, allow, isMerge, clean, order), k)| == Having(docs, k, allow, isMerge, clean, order)
    ensures Having(docs, k, allow, isMerge, clean, order) <= |docs|
  {
    ParseColumns(Empty, docs, k, allow, isMerge, clean, order);
    HavingContributions(docs, k, allow, isMerge, clean, order);
  }

  /** A non-`id` key gets one value from each document whose `filter_data` has it. */
  lemma {:induction false} HavingContributions(docs: seq<Document>, k: string, allow: set<string>, isMerge: bool,
                                               clean: string -> string, order: set<string> -> seq<string>)
    requires AllListed(docs, allow, order)
    requires k != "id"
    ensures |Contributions(docs, k, allow, isMerge, clean, order)| == Having(docs, k, allow, isMerge, clean, order) <= |docs|
  {
    if |docs| > 0 {
      HavingContributions(docs[1..], k, allow, isMerge, clean, order);
    }
  }

  /** With `is_merge` and `id` not allowed, the `merge` list is as long as the `id` list. */
  lemma MergeColumnLength(docs: seq<Document>, allow: set<string>,
                          clean: string -> string, order: set<string> -> seq<string>)
    requires AllListed(docs, allow, order)
    requires "id" !in allow
    ensures |Column(Parse(docs, allow, true, clean, order), "merge")| ==
            |Column(Parse(docs, allow, true, clean, order), "id")| == |docs|
  {
    IdColumn(docs, allow, true, clean, order);
    ColumnLength(docs, "merge", allow, true, clean, order);
    HavingAll(docs, "merge", allow, true, clean, order);
  }

  /** A key in every document's `filter_data` is counted once per document. */
  lemma {:induction false} HavingAll(docs: seq<Document>, k: string, allow: set<string>, isMerge: bool,
                                     clean: string -> string, order: set<string> -> seq<string>)
    requires AllListed(docs, allow, order)
    ensures Having(docs, k, allow, isMerge, clean, order) == |docs| <==>
      forall i :: 0 <= i < |docs| ==> k in Keys(FilterData(docs[i].record, allow, isMerge, clean, order))
  {
    if |docs| > 0 {
      HavingAll(docs[1..], k, allow, isMerge, clean, order);
      HavingContributionsBound(docs[1..], k, allow, isMerge, clean, order);
      forall i | 1 <= i < |docs|
        ensures docs[i] == docs[1..][i - 1]
      {
      }
    }
  }

  /** At most every document has a key. */
  lemma {:induction false} HavingContributionsBound(docs: seq<Document>, k: string, allow: set<string>, isMerge: bool,
                                                    clean: string -> string, order: set<string> -> seq<string>)
    requires AllListed(docs, allow, order)
    ensures Having(docs, k, allow, isMerge, clean, order) <= |docs|
  {
    if |docs| > 0 {
      HavingContributionsBound(docs[1..], k, allow, isMerge, clean, order);
    }
  }

  /** The dict's key order only ever grows at the end. */
  lemma {:induction false} ParseOrderGrows(t: Table, docs: seq<Document>, allow: set<string>, isMerge: bool,
                                           clean: string -> string, order: set<string> -> seq<string>)
    requires AllListed(docs, allow, order)
    ensures t.order <= ParseFrom(t, docs, allow, isMerge, clean, order).order
    decreases |docs|
  {
    if |docs| > 0 {
      var d := docs[0];
      var t1 := Append(t, "id", DocId(d.path));
      AppendAllOrderGrows(t1, FilterData(d.record, allow, isMerge, clean, order));
      ParseOrderGrows(AddDocument(t, d, allow, isMerge, clean, order), docs[1..], allow, isMerge, clean, order);
    }
  }

  /** Appending entries only extends the key order. */
  lemma {:induction false} AppendAllOrderGrows(t: Table, e: Entries)
    ensures t.order <= AppendAll(t, e).order
    decreases |e|
  {
    if |e| > 0 {
      AppendAllOrderGrows(Append(t, e[0].0, e[0].1), e[1..]);
    }
  }

  /** With at least one document, `id` is the first column of `json_data`. */
  lemma IdFirst(docs: seq<Document>, allow: set<string>, isMerge: bool,
                clean: string -> string, order: set<string> -> seq<string>)
    requires AllListed(docs, allow, order)
    requires |docs| > 0
    ensures |Parse(docs, allow, isMerge, clean, order).order| > 0
    ensures Parse(docs, allow, isMerge, clean, order).order[0] == "id"
  {
    var d := docs[0];
    var t1 := Append(Empty, "id", DocId(d.path));
    var e := FilterData(d.record, allow, isMerge, clean, order);
    AppendAllOrderGrows(t1, e);
    ParseOrderGrows(AppendAll(t1, e), docs[1..], allow, isMerge, clean, order);
  }

  /** Appending entries keeps a table well-formed with no empty list. */
  lemma {:induction false} AppendAllWf(t: Table, e: Entries)
    requires WfTable(t) && Grown(t)
    ensures WfTable(AppendAll(t, e)) && Grown(AppendAll(t, e))
    decreases |e|
  {
    if |e| > 0 {
      AppendAllWf(Append(t, e[0].0, e[0].1), e[1..]);
    }
  }

  /** The table built by the loop lists each key once, and every list is non-empty. */
  lemma {:induction false} ParseWf(t: Table, docs: seq<Document>, allow: set<string>, isMerge: bool,
                                   clean: string -> string, order: set<string> -> seq<string>)
    requires AllListed(docs, allow, order)
    requires WfTable(t) && Grown(t)
    ensures var r := ParseFrom(t, docs, allow, isMerge, clean, order); WfTable(r) && Grown(r)
    decreases |docs|
  {
    if |docs| > 0 {
      var d := docs[0];
      AppendAllWf(Append(t, "id", DocId(d.path)), FilterData(d.record, allow, isMerge, clean, order));
      assert AllListed(docs[1..], allow, order) by {
        forall d' <- docs[1..] ensures d' in docs { }
      }
      ParseWf(AddDocument(t, d, allow, isMerge, clean, order), docs[1..], allow, isMerge, clean, order);
    }
  }
}
