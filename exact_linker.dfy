/**
 * `add_ref_ids_for_exact_duplicates`: one forward pass over the rows with a single
 * dictionary from keys (normalised SKU name, normalised display name, item code, all
 * in one key space) to the first row registered under them. A row whose keys are all
 * new is registered under all three; otherwise it is linked to the row found by the
 * first key present, in that priority order, and adds no key.
 */
module ExactLinker {
  import opened Values
  import opened Table

  /** `unique_dict`: a key to the index of the row stored under it. */
  type Canon = map<Value, nat>

  /** The dictionary and the two reference columns after some prefix of the rows. */
  datatype LinkState = LinkState(canon: Canon, refSku: seq<Option<Value>>, refItem: seq<Option<Value>>)

  function SkuKey(r: Record): Value { Text(r.normSku) }
  function DisplayKey(r: Record): Value { Text(r.normDisplay) }
  function CodeKey(r: Record): Value { r.itemCode }

  function Keys(r: Record): set<Value> { {SkuKey(r), DisplayKey(r), CodeKey(r)} }

  /** A column of `None` cells (`df['ref_skuID'] = None`). */
  function Nones(n: nat): (s: seq<Option<Value>>)
    ensures |s| == n && forall i :: 0 <= i < n ==> s[i] == None
  {
    seq(n, _ => None)
  }

  /** The three dictionary lookups of one row, in the order the pass makes them. */
  function Lookup(canon: Canon, r: Record): Option<nat>
  {
    if SkuKey(r) in canon then Some(canon[SkuKey(r)])
    else if DisplayKey(r) in canon then Some(canon[DisplayKey(r)])
    else if CodeKey(r) in canon then Some(canon[CodeKey(r)])
    else None
  }

  /** Storing the row under its three keys. */
  function Register(canon: Canon, r: Record, k: nat): Canon
  {
    canon[SkuKey(r) := k][DisplayKey(r) := k][CodeKey(r) := k]
  }

  predicate CanonBelow(canon: Canon, k: nat)
  {
    forall key :: key in canon ==> canon[key] < k
  }

  /** One iteration of the pass, for row `k`. Only cell `k` of the columns can change. */
  function LinkRow(rows: seq<Record>, st: LinkState, k: nat): (r: LinkState)
    requires k < |rows| && |st.refSku| == |rows| && |st.refItem| == |rows|
    requires CanonBelow(st.canon, k)
    ensures |r.refSku| == |rows| && |r.refItem| == |rows| && CanonBelow(r.canon, k + 1)
    ensures forall j :: 0 <= j < |rows| && j != k ==> r.refSku[j] == st.refSku[j] && r.refItem[j] == st.refItem[j]
  {
    match Lookup(st.canon, rows[k])
    case Some(c) =>
      LinkState(st.canon, st.refSku[k := Some(rows[c].skuId)], st.refItem[k := Some(rows[c].itemCode)])
    case None =>
      LinkState(Register(st.canon, rows[k], k), st.refSku, st.refItem)
  }

  /** The state after the first `k` rows have been processed. */
  function LinkUpTo(rows: seq<Record>, k: nat): (st: LinkState)
    requires k <= |rows|
    ensures |st.refSku| == |rows| && |st.refItem| == |rows| && CanonBelow(st.canon, k)
    decreases k
  {
    if k == 0 then LinkState(map[], Nones(|rows|), Nones(|rows|))
    else LinkRow(rows, LinkUpTo(rows, k - 1), k - 1)
  }

  /** The result of the whole pass. */
  function ExactLinks(rows: seq<Record>): (st: LinkState)
    ensures |st.refSku| == |rows| && |st.refItem| == |rows|
  {
    LinkUpTo(rows, |rows|)
  }

  /** Row `j` (already processed) is registered: its reference cells are empty. */
  predicate Registered(st: LinkState, j: nat)
    requires j < |st.refSku|
  {
    st.refSku[j].None?
  }

  /** Row `j` holds a reference to the earlier registered row `c`. */
  predicate LinkedTo(rows: seq<Record>, st: LinkState, j: nat, c: nat)
    requires j < |rows| && |st.refSku| == |rows| && |st.refItem| == |rows|
  {
    c < j && st.refSku[c] == None &&
    st.refSku[j] == Some(rows[c].skuId) && st.refItem[j] == Some(rows[c].itemCode)
  }

  /** Rows not yet visited keep their `None` cells. */
  ghost predicate Pending(rows: seq<Record>, k: nat, st: LinkState)
    requires |st.refSku| == |rows| && |st.refItem| == |rows|
  {
    forall j :: k <= j < |rows| ==> st.refSku[j] == None && st.refItem[j] == None
  }

  /** Every key maps to an earlier registered row that has that key. */
  ghost predicate CanonSound(rows: seq<Record>, k: nat, st: LinkState)
    requires |st.refSku| == |rows| && |st.refItem| == |rows| && k <= |rows|
  {
    forall key :: key in st.canon ==>
      st.canon[key] < k && st.refSku[st.canon[key]] == None && key in Keys(rows[st.canon[key]])
  }

  /** A registered row owns all three of its keys. */
  ghost predicate RegisteredOwnKeys(rows: seq<Record>, k: nat, st: LinkState)
    requires |st.refSku| == |rows| && |st.refItem| == |rows| && k <= |rows|
  {
    forall j :: 0 <= j < k && st.refSku[j] == None ==>
      forall key :: key in Keys(rows[j]) ==> key in st.canon && st.canon[key] == j
  }

  /** Each processed row's references are both empty or both set, to an earlier registered row. */
  ghost predicate RefsShaped(rows: seq<Record>, k: nat, st: LinkState)
    requires |st.refSku| == |rows| && |st.refItem| == |rows| && k <= |rows|
  {
    forall j :: 0 <= j < k ==>
      (st.refSku[j].None? <==> st.refItem[j].None?) &&
      (st.refSku[j].Some? ==> exists c :: LinkedTo(rows, st, j, c))
  }

  /** The invariant the pass keeps after `k` rows. */
  ghost predicate LinkInv(rows: seq<Record>, k: nat, st: LinkState)
    requires k <= |rows| && |st.refSku| == |rows| && |st.refItem| == |rows|
  {
    Pending(rows, k, st) && CanonSound(rows, k, st) && RegisteredOwnKeys(rows, k, st) && RefsShaped(rows, k, st)
  }

  /** A linked row keeps the invariant: it adds no key and points to a registered row. */
  lemma LinkRowLinkedKeepsInv(rows: seq<Record>, st: LinkState, k: nat, c: nat)
    requires k < |rows| && |st.refSku| == |rows| && |st.refItem| == |rows|
    requires CanonBelow(st.canon, k) && LinkInv(rows, k, st)
    requires Lookup(st.canon, rows[k]) == Some(c)
    ensures LinkInv(rows, k + 1, LinkRow(rows, st, k))
  {
    var r := LinkRow(rows, st, k);
    assert r.canon == st.canon;
    assert st.refSku[c] == None && c < k;
    assert LinkedTo(rows, r, k, c);
    forall j | 0 <= j < k && r.refSku[j].Some? ensures exists c' :: LinkedTo(rows, r, j, c') {
      var c' :| LinkedTo(rows, st, j, c');
      assert LinkedTo(rows, r, j, c');
    }
  }

  /** What registering a row does to the dictionary: its three keys go to it, nothing else moves. */
  lemma RegisterEffect(canon: Canon, r: Record, k: nat, key: Value)
    ensures key in Register(canon, r, k) <==> key in canon || key in Keys(r)
    ensures key in Keys(r) ==> Register(canon, r, k)[key] == k
    ensures key !in Keys(r) && key in canon ==> Register(canon, r, k)[key] == canon[key]
  {
  }

  /** The keys of a registered row were all new, so registering keeps every mapping sound. */
  lemma RegisterKeepsCanonSound(rows: seq<Record>, st: LinkState, k: nat)
    requires k < |rows| && |st.refSku| == |rows| && |st.refItem| == |rows|
    requires Pending(rows, k, st) && CanonSound(rows, k, st)
    ensures CanonSound(rows, k + 1, LinkState(Register(st.canon, rows[k], k), st.refSku, st.refItem))
  {
    var r := LinkState(Register(st.canon, rows[k], k), st.refSku, st.refItem);
    forall key | key in r.canon
      ensures r.canon[key] < k + 1 && r.refSku[r.canon[key]] == None && key in Keys(rows[r.canon[key]])
    {
      RegisterEffect(st.canon, rows[k], k, key);
    }
  }

  /** ... and keeps every earlier registered row the owner of its keys. */
  lemma RegisterKeepsOwnership(rows: seq<Record>, st: LinkState, k: nat)
    requires k < |rows| && |st.refSku| == |rows| && |st.refItem| == |rows|
    requires RegisteredOwnKeys(rows, k, st) && Lookup(st.canon, rows[k]) == None
    ensures RegisteredOwnKeys(rows, k + 1, LinkState(Register(st.canon, rows[k], k), st.refSku, st.refItem))
  {
    var r := LinkState(Register(st.canon, rows[k], k), st.refSku, st.refItem);
    forall j | 0 <= j < k + 1 && r.refSku[j] == None
      ensures forall key :: key in Keys(rows[j]) ==> key in r.canon && r.canon[key] == j
    {
      forall key | key in Keys(rows[j]) ensures key in r.canon && r.canon[key] == j {
        RegisterEffect(st.canon, rows[k], k, key);
        if j < k {
          assert key in st.canon && st.canon[key] == j;
          assert key !in Keys(rows[k]);
        }
      }
    }
  }

  /** ... and leaves the reference columns, hence their shape, alone. */
  lemma RegisterKeepsShape(rows: seq<Record>, st: LinkState, k: nat)
    requires k < |rows| && |st.refSku| == |rows| && |st.refItem| == |rows|
    requires Pending(rows, k, st) && RefsShaped(rows, k, st)
    ensures Pending(rows, k + 1, LinkState(Register(st.canon, rows[k], k), st.refSku, st.refItem))
    ensures RefsShaped(rows, k + 1, LinkState(Register(st.canon, rows[k], k), st.refSku, st.refItem))
  {
    var r := LinkState(Register(st.canon, rows[k], k), st.refSku, st.refItem);
    forall j | 0 <= j < k + 1 && r.refSku[j].Some? ensures exists c' :: LinkedTo(rows, r, j, c') {
      var c' :| LinkedTo(rows, st, j, c');
      assert LinkedTo(rows, r, j, c');
    }
  }

  /** A registered row keeps the invariant: its keys were all new, so nothing is overwritten. */
  lemma LinkRowRegistersKeepsInv(rows: seq<Record>, st: LinkState, k: nat)
    requires k < |rows| && |st.refSku| == |rows| && |st.refItem| == |rows|
    requires CanonBelow(st.canon, k) && LinkInv(rows, k, st)
    requires Lookup(st.canon, rows[k]) == None
    ensures LinkInv(rows, k + 1, LinkRow(rows, st, k))
  {
    assert LinkRow(rows, st, k) == LinkState(Register(st.canon, rows[k], k), st.refSku, st.refItem);
    RegisterKeepsCanonSound(rows, st, k);
    RegisterKeepsOwnership(rows, st, k);
    RegisterKeepsShape(rows, st, k);
  }

  lemma {:induction false} LinkInvHolds(rows: seq<Record>, k: nat)
    requires k <= |rows|
    ensures LinkInv(rows, k, LinkUpTo(rows, k))
    decreases k
  {
    if k > 0 {
      var st := LinkUpTo(rows, k - 1);
      LinkInvHolds(rows, k - 1);
      match Lookup(st.canon, rows[k - 1])
      case Some(c) => LinkRowLinkedKeepsInv(rows, st, k - 1, c);
      case None => LinkRowRegistersKeepsInv(rows, st, k - 1);
    }
  }

  /** A cell, once the pass has visited its row, is never written again. */
  lemma {:induction false} LinkStable(rows: seq<Record>, j: nat, k: nat)
    requires j < k <= |rows|
    ensures LinkUpTo(rows, k).refSku[j] == LinkUpTo(rows, j + 1).refSku[j]
    ensures LinkUpTo(rows, k).refItem[j] == LinkUpTo(rows, j + 1).refItem[j]
    decreases k
  {
    if k > j + 1 {
      LinkStable(rows, j, k - 1);
    }
  }

  /**
   * The reference columns after the pass: for every row, both cells are empty or both are
   * set, and a set pair holds the `Sku_ID`/`Item_Code` of a row at a strictly smaller index
   * that is itself registered (unreferenced).
   */
  lemma ExactLinksShape(rows: seq<Record>, j: nat)
    requires j < |rows|
    ensures ExactLinks(rows).refSku[j].None? <==> ExactLinks(rows).refItem[j].None?
    ensures ExactLinks(rows).refSku[j].Some? ==> exists c :: LinkedTo(rows, ExactLinks(rows), j, c)
  {
    LinkInvHolds(rows, |rows|);
  }

  /** Row 0 is always registered and never referenced. */
  lemma ExactFirstRowRegistered(rows: seq<Record>)
    requires |rows| > 0
    ensures ExactLinks(rows).refSku[0] == None && ExactLinks(rows).refItem[0] == None
  {
    LinkInvHolds(rows, |rows|);
  }

  /** Two registered rows never share a key: each key has a single canonical row. */
  lemma RegisteredKeysDisjoint(rows: seq<Record>, i: nat, j: nat)
    requires i < j < |rows|
    requires Registered(ExactLinks(rows), i) && Registered(ExactLinks(rows), j)
    ensures Keys(rows[i]) !! Keys(rows[j])
  {
    LinkInvHolds(rows, |rows|);
  }

  /** `key` belongs to a row before `j` that the pass registered. */
  ghost predicate OwnedBefore(rows: seq<Record>, key: Value, j: nat)
    requires j <= |rows|
  {
    exists i :: 0 <= i < j && ExactLinks(rows).refSku[i] == None && key in Keys(rows[i])
  }

  /**
   * When row `j` is visited, the dictionary holds exactly the keys of the registered rows
   * before it, each mapped to the row that owns it.
   */
  lemma CanonBeforeRow(rows: seq<Record>, j: nat, key: Value)
    requires j <= |rows|
    ensures key in LinkUpTo(rows, j).canon <==> OwnedBefore(rows, key, j)
    ensures key in LinkUpTo(rows, j).canon ==>
      var i := LinkUpTo(rows, j).canon[key];
      i < j && ExactLinks(rows).refSku[i] == None && key in Keys(rows[i])
  {
    var st := LinkUpTo(rows, j);
    var fin := ExactLinks(rows);
    LinkInvHolds(rows, j);
    if key in st.canon {
      var i := st.canon[key];
      LinkStable(rows, i, j);
      LinkStable(rows, i, |rows|);
    }
    if OwnedBefore(rows, key, j) {
      var i :| 0 <= i < j && fin.refSku[i] == None && key in Keys(rows[i]);
      LinkStable(rows, i, j);
      LinkStable(rows, i, |rows|);
    }
  }

  /** The reference row `j` ends up with is the one the dictionary gives when `j` is visited. */
  lemma ExactRowOutcome(rows: seq<Record>, j: nat)
    requires j < |rows|
    ensures var fin := ExactLinks(rows);
      match Lookup(LinkUpTo(rows, j).canon, rows[j])
      case Some(c) => c < j && fin.refSku[j] == Some(rows[c].skuId) && fin.refItem[j] == Some(rows[c].itemCode)
      case None => fin.refSku[j] == None && fin.refItem[j] == None
  {
    LinkStable(rows, j, |rows|);
    LinkInvHolds(rows, j);
  }

  /** The owner of a key, if it is registered before `j`, is unique. */
  lemma OwnerUnique(rows: seq<Record>, key: Value, j: nat, i: nat)
    requires j <= |rows| && i < j && ExactLinks(rows).refSku[i] == None && key in Keys(rows[i])
    ensures key in LinkUpTo(rows, j).canon && LinkUpTo(rows, j).canon[key] == i
  {
    CanonBeforeRow(rows, j, key);
    var i' := LinkUpTo(rows, j).canon[key];
    if i' < i { RegisteredKeysDisjoint(rows, i', i); }
    if i < i' { RegisteredKeysDisjoint(rows, i, i'); }
  }

  /** First priority: a row whose normalised SKU name belongs to a registered row links to it. */
  lemma LinkBySkuName(rows: seq<Record>, i: nat, j: nat)
    requires i < j < |rows| && Registered(ExactLinks(rows), i)
    requires SkuKey(rows[j]) in Keys(rows[i])
    ensures ExactLinks(rows).refSku[j] == Some(rows[i].skuId)
    ensures ExactLinks(rows).refItem[j] == Some(rows[i].itemCode)
  {
    OwnerUnique(rows, SkuKey(rows[j]), j, i);
    ExactRowOutcome(rows, j);
  }

  /** Second priority: the normalised display name, when the SKU name is no registered row's key. */
  lemma LinkByDisplayName(rows: seq<Record>, i: nat, j: nat)
    requires i < j < |rows| && Registered(ExactLinks(rows), i)
    requires !OwnedBefore(rows, SkuKey(rows[j]), j)
    requires DisplayKey(rows[j]) in Keys(rows[i])
    ensures ExactLinks(rows).refSku[j] == Some(rows[i].skuId)
    ensures ExactLinks(rows).refItem[j] == Some(rows[i].itemCode)
  {
    CanonBeforeRow(rows, j, SkuKey(rows[j]));
    OwnerUnique(rows, DisplayKey(rows[j]), j, i);
    ExactRowOutcome(rows, j);
  }

  /** Third priority: the item code, when neither name is a registered row's key. */
  lemma LinkByItemCode(rows: seq<Record>, i: nat, j: nat)
    requires i < j < |rows| && Registered(ExactLinks(rows), i)
    requires !OwnedBefore(rows, SkuKey(rows[j]), j) && !OwnedBefore(rows, DisplayKey(rows[j]), j)
    requires CodeKey(rows[j]) in Keys(rows[i])
    ensures ExactLinks(rows).refSku[j] == Some(rows[i].skuId)
    ensures ExactLinks(rows).refItem[j] == Some(rows[i].itemCode)
  {
    CanonBeforeRow(rows, j, SkuKey(rows[j]));
    CanonBeforeRow(rows, j, DisplayKey(rows[j]));
    OwnerUnique(rows, CodeKey(rows[j]), j, i);
    ExactRowOutcome(rows, j);
  }

  /** A row is registered exactly when none of its three keys belongs to an earlier registered row. */
  lemma RegisteredIffKeysNew(rows: seq<Record>, j: nat)
    requires j < |rows|
    ensures Registered(ExactLinks(rows), j) <==>
      !OwnedBefore(rows, SkuKey(rows[j]), j) && !OwnedBefore(rows, DisplayKey(rows[j]), j) &&
      !OwnedBefore(rows, CodeKey(rows[j]), j)
  {
    CanonBeforeRow(rows, j, SkuKey(rows[j]));
    CanonBeforeRow(rows, j, DisplayKey(rows[j]));
    CanonBeforeRow(rows, j, CodeKey(rows[j]));
    ExactRowOutcome(rows, j);
  }

  /**
   * The dictionary only grows: an existing mapping is never overwritten, and a row that is
   * linked adds no key at all.
   */
  lemma CanonNeverOverwritten(rows: seq<Record>, k: nat)
    requires k < |rows|
    ensures forall key :: key in LinkUpTo(rows, k).canon ==>
      key in LinkUpTo(rows, k + 1).canon && LinkUpTo(rows, k + 1).canon[key] == LinkUpTo(rows, k).canon[key]
    ensures LinkUpTo(rows, k + 1).refSku[k].Some? ==> LinkUpTo(rows, k + 1).canon == LinkUpTo(rows, k).canon
    ensures LinkUpTo(rows, k + 1).refSku[k].None? ==> LinkUpTo(rows, k + 1).canon.Keys == LinkUpTo(rows, k).canon.Keys + Keys(rows[k])
  {
    var st := LinkUpTo(rows, k);
    var next := LinkUpTo(rows, k + 1);
    assert next == LinkRow(rows, st, k);
    LinkInvHolds(rows, k);
    assert st.refSku[k] == None;
    match Lookup(st.canon, rows[k])
    case Some(c) =>
      assert next.canon == st.canon && next.refSku[k].Some?;
    case None =>
      assert next.canon == Register(st.canon, rows[k], k) && next.refSku[k].None?;
      forall key | key in st.canon ensures key in next.canon && next.canon[key] == st.canon[key] {
        RegisterEffect(st.canon, rows[k], k, key);
      }
      forall key ensures key in next.canon <==> key in st.canon || key in Keys(rows[k]) {
        RegisterEffect(st.canon, rows[k], k, key);
      }
  }

  /** Two rows with the same normalised SKU name: the later one references the earlier one. */
  lemma TwoRowsSameSkuName(a: Record, b: Record)
    requires a.normSku == b.normSku
    ensures ExactLinks([a, b]).refSku == [None, Some(a.skuId)]
    ensures ExactLinks([a, b]).refItem == [None, Some(a.itemCode)]
  {
    ExactFirstRowRegistered([a, b]);
    LinkBySkuName([a, b], 0, 1);
  }

  /**
   * Linking is not transitive: B is linked to A through their display name, and C, which
   * has B's SKU name, is registered as a new canonical row because B added no key.
   */
  lemma ExactLinkingNotTransitive()
    ensures var a := Record(Number(1), Number(101), "A", "X", "a", "x", "", "");
      var b := Record(Number(2), Number(102), "B", "X", "b", "x", "", "");
      var c := Record(Number(3), Number(103), "B", "Y", "b", "y", "", "");
      b.normSku == c.normSku &&
      ExactLinks([a, b, c]).refSku == [None, Some(Number(1)), None]
  {
    var a := Record(Number(1), Number(101), "A", "X", "a", "x", "", "");
    var b := Record(Number(2), Number(102), "B", "X", "b", "x", "", "");
    var c := Record(Number(3), Number(103), "B", "Y", "b", "y", "", "");
    var rows := [a, b, c];
    ExactFirstRowRegistered(rows);
    assert !OwnedBefore(rows, SkuKey(b), 1);
    LinkByDisplayName(rows, 0, 1);
    RegisteredIffKeysNew(rows, 2);
  }

  /** `df[column] = None`: every cell of the column becomes `None`. */
  method ClearColumn(a: array<Option<Value>>)
    modifies a
    ensures a[..] == Nones(a.Length)
  {
    var k := 0;
    while k < a.Length
      invariant 0 <= k <= a.Length
      invariant forall j :: 0 <= j < k ==> a[j] == None
    {
      a[k] := None;
      k := k + 1;
    }
  }

  /** The loop body for row `idx`: the three dictionary lookups, then link or register. */
  method LinkRowInPlace(rows: seq<Record>, refSku: array<Option<Value>>, refItem: array<Option<Value>>,
                        unique: Canon, idx: nat)
    returns (unique': Canon)
    requires refSku.Length == |rows| && refItem.Length == |rows| && refSku != refItem
    requires idx < |rows| && CanonBelow(unique, idx)
    modifies refSku, refItem
    ensures LinkState(unique', refSku[..], refItem[..])
            == LinkRow(rows, LinkState(unique, old(refSku[..]), old(refItem[..])), idx)
  {
    unique' := unique;
    var row := rows[idx];
    var keySku, keyDisplay, keyCode := Text(row.normSku), Text(row.normDisplay), row.itemCode;
    if keySku in unique {
      refSku[idx] := Some(rows[unique[keySku]].skuId);
      refItem[idx] := Some(rows[unique[keySku]].itemCode);
    } else if keyDisplay in unique {
      refSku[idx] := Some(rows[unique[keyDisplay]].skuId);
      refItem[idx] := Some(rows[unique[keyDisplay]].itemCode);
    } else if keyCode in unique {
      refSku[idx] := Some(rows[unique[keyCode]].skuId);
      refItem[idx] := Some(rows[unique[keyCode]].itemCode);
    } else {
      unique' := unique[keySku := idx][keyDisplay := idx][keyCode := idx];
    }
  }

  /** The pass itself, over the two reference columns of the table. */
  method AddRefIdsForExactDuplicates(rows: seq<Record>, refSku: array<Option<Value>>, refItem: array<Option<Value>>)
    requires refSku.Length == |rows| && refItem.Length == |rows| && refSku != refItem
    modifies refSku, refItem
    ensures refSku[..] == ExactLinks(rows).refSku && refItem[..] == ExactLinks(rows).refItem
    ensures forall j :: 0 <= j < |rows| ==> (refSku[j].None? <==> refItem[j].None?)
    ensures forall j :: 0 <= j < |rows| && refSku[j].Some? ==>
      exists c :: 0 <= c < j && refSku[c] == None &&
        refSku[j] == Some(rows[c].skuId) && refItem[j] == Some(rows[c].itemCode)
  {
    var n := |rows|;
    ClearColumn(refSku);
    ClearColumn(refItem);
    var unique: Canon := map[];
    var idx := 0;
    while idx < n
      invariant 0 <= idx <= n
      invariant LinkState(unique, refSku[..], refItem[..]) == LinkUpTo(rows, idx)
    {
      unique := LinkRowInPlace(rows, refSku, refItem, unique, idx);
      idx := idx + 1;
    }
    forall j | 0 <= j < n
      ensures refSku[j].None? <==> refItem[j].None?
      ensures refSku[j].Some? ==>
        exists c :: 0 <= c < j && refSku[c] == None &&
          refSku[j] == Some(rows[c].skuId) && refItem[j] == Some(rows[c].itemCode)
    {
      ExactLinksShape(rows, j);
      if refSku[j].Some? {
        var c: nat :| LinkedTo(rows, ExactLinks(rows), j, c);
        assert refSku[c] == None;
      }
    }
  }
}
