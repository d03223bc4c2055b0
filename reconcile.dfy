/**
 * `reconcile_countries_by_code`: maps each plot code to the GDP-table key
 * reached through the code converter, comparing plot codes lower-cased and
 * data codes upper-cased, and collects the plot codes that reach none.
 */
module Reconcile {
  import opened Wrappers
  import opened Text
  import opened OrderedDict
  import opened Loaders

  /** Entry `j` is the first converter entry whose plot code lower-cases to `normCode`. */
  predicate IsFirstHit(converter: Dict<string, string>, normCode: string, j: int) {
    && 0 <= j < |converter|
    && Lower(converter[j].0) == normCode
    && forall m :: 0 <= m < j ==> Lower(converter[m].0) != normCode
  }

  /** Entry `l` holds the first GDP key whose upper-cased form is `target`. */
  predicate IsFirstKey(gdpCountries: Dict<string, Row>, target: string, l: int) {
    && 0 <= l < |gdpCountries|
    && Upper(gdpCountries[l].0) == target
    && forall m :: 0 <= m < l ==> Upper(gdpCountries[m].0) != target
  }

  /** The scan over the converter from entry `j` on: where it stops, or None when it runs off the end. */
  function ConverterHitFrom(converter: Dict<string, string>, normCode: string, j: nat): (r: Option<nat>)
    requires j <= |converter|
    ensures r.Some? ==> j <= r.value < |converter| && Lower(converter[r.value].0) == normCode
    ensures forall m :: j <= m < (if r.Some? then r.value else |converter|) ==> Lower(converter[m].0) != normCode
    decreases |converter| - j
  {
    if j == |converter| then None
    else if Lower(converter[j].0) == normCode then Some(j)
    else ConverterHitFrom(converter, normCode, j + 1)
  }

  /** The scan over the GDP keys from entry `l` on: where it stops, or None when it runs off the end. */
  function GdpKeyFrom(gdpCountries: Dict<string, Row>, target: string, l: nat): (r: Option<nat>)
    requires l <= |gdpCountries|
    ensures r.Some? ==> l <= r.value < |gdpCountries| && Upper(gdpCountries[r.value].0) == target
    ensures forall m :: l <= m < (if r.Some? then r.value else |gdpCountries|) ==> Upper(gdpCountries[m].0) != target
    decreases |gdpCountries| - l
  {
    if l == |gdpCountries| then None
    else if Upper(gdpCountries[l].0) == target then Some(l)
    else GdpKeyFrom(gdpCountries, target, l + 1)
  }

  /**
   * The GDP key recorded for `plotCode`, or None when the code is unmatched:
   * only the first converter hit is followed, and it yields the first GDP
   * key equal to its data code up to case, in the key's own casing.
   */
  function Resolve(converter: Dict<string, string>, gdpCountries: Dict<string, Row>, plotCode: string): (r: Option<string>)
    ensures r.Some? ==> r.value in Keys(gdpCountries)
  {
    match ConverterHitFrom(converter, Lower(plotCode), 0)
    case None => None
    case Some(j) =>
      match GdpKeyFrom(gdpCountries, Upper(converter[j].1), 0)
      case None => None
      case Some(l) =>
        assert Keys(gdpCountries)[l] == gdpCountries[l].0;
        Some(gdpCountries[l].0)
  }

  /** `(matched, unmatched)` after the outer loop has visited the entries of `plotCountries`. */
  function Reconciliation(converter: Dict<string, string>, plotCountries: Dict<string, string>,
                          gdpCountries: Dict<string, Row>): (Dict<string, string>, set<string>)
  {
    if plotCountries == [] then ([], {})
    else
      var (matched, unmatched) := Reconciliation(converter, plotCountries[..|plotCountries| - 1], gdpCountries);
      var plotCode := plotCountries[|plotCountries| - 1].0;
      match Resolve(converter, gdpCountries, plotCode)
      case Some(key) => (Assign(matched, plotCode, key), unmatched)
      case None => (matched, unmatched + {plotCode})
  }

  /**
   * The nested `for ... else` scan of `reconcile_countries_by_code`, with the
   * converter passed in already built.
   */
  method ReconcileCountriesByCode(converter: Dict<string, string>, plotCountries: Dict<string, string>,
                                  gdpCountries: Dict<string, Row>)
    returns (matched: Dict<string, string>, unmatched: set<string>)
    ensures (matched, unmatched) == Reconciliation(converter, plotCountries, gdpCountries)
  {
    matched, unmatched := [], {};
    for i := 0 to |plotCountries|
      invariant (matched, unmatched) == Reconciliation(converter, plotCountries[..i], gdpCountries)
    {
      ReconciliationSnoc(converter, plotCountries, gdpCountries, i);
      ghost var matched0, unmatched0 := matched, unmatched;
      var plotCode := plotCountries[i].0;
      var normCode := Lower(plotCode);
      var hit := false;
      var j := 0;
      while j < |converter|
        invariant 0 <= j <= |converter|
        invariant ConverterHitFrom(converter, normCode, j) == ConverterHitFrom(converter, normCode, 0)
        invariant !hit && matched == matched0 && unmatched == unmatched0
      {
        if Lower(converter[j].0) == normCode {
          var gdpCode := converter[j].1;
          var found := false;
          var l := 0;
          while l < |gdpCountries|
            invariant 0 <= l <= |gdpCountries|
            invariant GdpKeyFrom(gdpCountries, Upper(gdpCode), l) == GdpKeyFrom(gdpCountries, Upper(gdpCode), 0)
            invariant !found && matched == matched0
          {
            if Upper(gdpCountries[l].0) == Upper(gdpCode) {
              ResolveFound(converter, gdpCountries, plotCode, j, l);
              matched := Assign(matched, plotCode, gdpCountries[l].0);
              found := true;
              break;
            }
            l := l + 1;
          }
          if !found {
            ResolveNoKey(converter, gdpCountries, plotCode, j);
            unmatched := unmatched + {plotCode};
          }
          hit := true;
          break;
        }
        j := j + 1;
      }
      if !hit {
        unmatched := unmatched + {plotCode};
      }
    }
    assert plotCountries[..|plotCountries|] == plotCountries;
  }

  /** One more visited plot entry extends the outcome as `Resolve` says for its code. */
  lemma ReconciliationSnoc(converter: Dict<string, string>, plotCountries: Dict<string, string>,
                           gdpCountries: Dict<string, Row>, i: nat)
    requires i < |plotCountries|
    ensures var (matched, unmatched) := Reconciliation(converter, plotCountries[..i], gdpCountries);
      var plotCode := plotCountries[i].0;
      Reconciliation(converter, plotCountries[..i + 1], gdpCountries)
        == match Resolve(converter, gdpCountries, plotCode)
           case Some(key) => (Assign(matched, plotCode, key), unmatched)
           case None => (matched, unmatched + {plotCode})
  {
    assert plotCountries[..i + 1][..i] == plotCountries[..i];
  }

  /** The first converter hit `j` leads to the first matching GDP key `l`. */
  lemma ResolveFound(converter: Dict<string, string>, gdpCountries: Dict<string, Row>, plotCode: string, j: nat, l: nat)
    requires ConverterHitFrom(converter, Lower(plotCode), 0) == Some(j)
    requires l < |gdpCountries| && Upper(gdpCountries[l].0) == Upper(converter[j].1)
    requires GdpKeyFrom(gdpCountries, Upper(converter[j].1), l) == GdpKeyFrom(gdpCountries, Upper(converter[j].1), 0)
    ensures Resolve(converter, gdpCountries, plotCode) == Some(gdpCountries[l].0)
  {
  }

  /** The first converter hit `j` leads to no GDP key at all. */
  lemma ResolveNoKey(converter: Dict<string, string>, gdpCountries: Dict<string, Row>, plotCode: string, j: nat)
    requires ConverterHitFrom(converter, Lower(plotCode), 0) == Some(j)
    requires GdpKeyFrom(gdpCountries, Upper(converter[j].1), |gdpCountries|) == GdpKeyFrom(gdpCountries, Upper(converter[j].1), 0)
    ensures Resolve(converter, gdpCountries, plotCode) == None
  {
  }

  /** Following only the first converter hit, `Resolve` yields exactly the first matching GDP key. */
  lemma ResolveIsFirstHitFirstKey(converter: Dict<string, string>, gdpCountries: Dict<string, Row>,
                                  plotCode: string, key: string)
    ensures Resolve(converter, gdpCountries, plotCode) == Some(key) <==>
      exists j, l :: IsFirstHit(converter, Lower(plotCode), j)
        && IsFirstKey(gdpCountries, Upper(converter[j].1), l)
        && gdpCountries[l].0 == key
  {
    var normCode := Lower(plotCode);
    if Resolve(converter, gdpCountries, plotCode) == Some(key) {
      var j := ConverterHitFrom(converter, normCode, 0).value;
      var l := GdpKeyFrom(gdpCountries, Upper(converter[j].1), 0).value;
      assert IsFirstHit(converter, normCode, j) && IsFirstKey(gdpCountries, Upper(converter[j].1), l);
    }
    if exists j, l :: IsFirstHit(converter, normCode, j)
        && IsFirstKey(gdpCountries, Upper(converter[j].1), l) && gdpCountries[l].0 == key {
      var j, l :| IsFirstHit(converter, normCode, j)
        && IsFirstKey(gdpCountries, Upper(converter[j].1), l) && gdpCountries[l].0 == key;
      FirstHitIsFound(converter, normCode, j);
      FirstKeyIsFound(gdpCountries, Upper(converter[j].1), l);
    }
  }

  lemma FirstHitIsFound(converter: Dict<string, string>, normCode: string, j: int)
    requires IsFirstHit(converter, normCode, j)
    ensures ConverterHitFrom(converter, normCode, 0) == Some(j)
  {
  }

  lemma FirstKeyIsFound(gdpCountries: Dict<string, Row>, target: string, l: int)
    requires IsFirstKey(gdpCountries, target, l)
    ensures GdpKeyFrom(gdpCountries, target, 0) == Some(l)
  {
  }

  /**
   * Only the first converter entry matching the plot code is tried: when its
   * data code names no GDP key, the plot code is unmatched whatever later
   * converter entries say.
   */
  lemma OnlyFirstHitIsTried(converter: Dict<string, string>, gdpCountries: Dict<string, Row>,
                            plotCode: string, j: int)
    requires IsFirstHit(converter, Lower(plotCode), j)
    requires forall l :: 0 <= l < |gdpCountries| ==> Upper(gdpCountries[l].0) != Upper(converter[j].1)
    ensures Resolve(converter, gdpCountries, plotCode) == None
  {
    FirstHitIsFound(converter, Lower(plotCode), j);
  }

  /** `matched` holds one entry per plot code. */
  lemma {:induction false} ReconciliationDistinct(converter: Dict<string, string>, plotCountries: Dict<string, string>,
                                                  gdpCountries: Dict<string, Row>)
    ensures DistinctKeys(Reconciliation(converter, plotCountries, gdpCountries).0)
  {
    if plotCountries != [] {
      var init := plotCountries[..|plotCountries| - 1];
      var plotCode := plotCountries[|plotCountries| - 1].0;
      ReconciliationDistinct(converter, init, gdpCountries);
      var r := Resolve(converter, gdpCountries, plotCode);
      if r.Some? {
        AssignDistinct(Reconciliation(converter, init, gdpCountries).0, plotCode, r.value);
      }
    }
  }

  /** Every value recorded in `matched` is a key of the GDP table. */
  lemma {:induction false} ReconciliationValues(converter: Dict<string, string>, plotCountries: Dict<string, string>,
                                                gdpCountries: Dict<string, Row>)
    ensures forall e :: e in Reconciliation(converter, plotCountries, gdpCountries).0 ==> e.1 in Keys(gdpCountries)
  {
    if plotCountries != [] {
      ReconciliationValues(converter, plotCountries[..|plotCountries| - 1], gdpCountries);
    }
  }

  /**
   * `matched` is a dict over plot codes whose values are all keys of the
   * GDP table.
   */
  lemma ReconciliationMatchedShape(converter: Dict<string, string>, plotCountries: Dict<string, string>,
                                   gdpCountries: Dict<string, Row>)
    ensures var matched := Reconciliation(converter, plotCountries, gdpCountries).0;
      && DistinctKeys(matched)
      && (forall p :: p in Keys(matched) ==> p in Keys(plotCountries))
      && (forall e :: e in matched ==> e.1 in Keys(gdpCountries))
  {
    ReconciliationDistinct(converter, plotCountries, gdpCountries);
    ReconciliationValues(converter, plotCountries, gdpCountries);
    forall p | p !in Keys(plotCountries)
      ensures p !in Keys(Reconciliation(converter, plotCountries, gdpCountries).0)
    {
      ReconciliationUnseen(converter, plotCountries, gdpCountries, p);
    }
  }

  /** A code that is not among the plot codes never becomes a key of `matched`. */
  lemma {:induction false} ReconciliationUnseen(converter: Dict<string, string>, plotCountries: Dict<string, string>,
                                                gdpCountries: Dict<string, Row>, p: string)
    requires p !in Keys(plotCountries)
    ensures p !in Keys(Reconciliation(converter, plotCountries, gdpCountries).0)
  {
    if plotCountries != [] {
      var init := plotCountries[..|plotCountries| - 1];
      var plotCode := plotCountries[|plotCountries| - 1].0;
      assert forall i :: 0 <= i < |init| ==> Keys(init)[i] == Keys(plotCountries)[i];
      assert plotCode == Keys(plotCountries)[|plotCountries| - 1];
      ReconciliationUnseen(converter, init, gdpCountries, p);
    }
  }

  /** The entry `matched` holds for one plot code is what `Resolve` gives for it. */
  lemma {:induction false} ReconciliationGet(converter: Dict<string, string>, plotCountries: Dict<string, string>,
                                             gdpCountries: Dict<string, Row>, p: string)
    requires p in Keys(plotCountries)
    ensures Get(Reconciliation(converter, plotCountries, gdpCountries).0, p) == Resolve(converter, gdpCountries, p)
    decreases |plotCountries|
  {
    var init := plotCountries[..|plotCountries| - 1];
    if p == plotCountries[|plotCountries| - 1].0 {
      if p in Keys(init) {
        ReconciliationGet(converter, init, gdpCountries, p);
      } else {
        ReconciliationUnseen(converter, init, gdpCountries, p);
      }
      GetAtLast(converter, plotCountries, gdpCountries);
    } else {
      var i :| 0 <= i < |plotCountries| && Keys(plotCountries)[i] == p;
      assert i < |init| && Keys(init)[i] == p;
      ReconciliationGet(converter, init, gdpCountries, p);
      GetBeforeLast(converter, plotCountries, gdpCountries, p);
    }
  }

  /**
   * The last plot entry leaves `matched` holding what its code resolves to,
   * given that before it `matched` held that already or nothing.
   */
  lemma GetAtLast(converter: Dict<string, string>, plotCountries: Dict<string, string>, gdpCountries: Dict<string, Row>)
    requires plotCountries != []
    requires var p := plotCountries[|plotCountries| - 1].0;
      var before := Get(Reconciliation(converter, plotCountries[..|plotCountries| - 1], gdpCountries).0, p);
      before == None || before == Resolve(converter, gdpCountries, p)
    ensures var p := plotCountries[|plotCountries| - 1].0;
      Get(Reconciliation(converter, plotCountries, gdpCountries).0, p) == Resolve(converter, gdpCountries, p)
  {
  }

  /** The last plot entry does not change what `matched` holds for any other code. */
  lemma GetBeforeLast(converter: Dict<string, string>, plotCountries: Dict<string, string>,
                      gdpCountries: Dict<string, Row>, p: string)
    requires plotCountries != [] && p != plotCountries[|plotCountries| - 1].0
    ensures Get(Reconciliation(converter, plotCountries, gdpCountries).0, p)
      == Get(Reconciliation(converter, plotCountries[..|plotCountries| - 1], gdpCountries).0, p)
  {
  }

  /** `matched` records each plot code that resolves, under its GDP key, and no other. */
  lemma ReconciliationMatched(converter: Dict<string, string>, plotCountries: Dict<string, string>,
                              gdpCountries: Dict<string, Row>)
    ensures forall p :: p in Keys(plotCountries) ==>
      Get(Reconciliation(converter, plotCountries, gdpCountries).0, p) == Resolve(converter, gdpCountries, p)
  {
    forall p | p in Keys(plotCountries)
      ensures Get(Reconciliation(converter, plotCountries, gdpCountries).0, p) == Resolve(converter, gdpCountries, p)
    {
      ReconciliationGet(converter, plotCountries, gdpCountries, p);
    }
  }

  /** `unmatched` holds exactly the plot codes that do not resolve. */
  lemma {:induction false} ReconciliationUnmatched(converter: Dict<string, string>, plotCountries: Dict<string, string>,
                                                   gdpCountries: Dict<string, Row>)
    ensures forall p :: (p in Reconciliation(converter, plotCountries, gdpCountries).1
      <==> p in Keys(plotCountries) && Resolve(converter, gdpCountries, p).None?)
  {
    if plotCountries != [] {
      var init := plotCountries[..|plotCountries| - 1];
      var plotCode := plotCountries[|plotCountries| - 1].0;
      ReconciliationUnmatched(converter, init, gdpCountries);
      assert Keys(plotCountries) == Keys(init) + [plotCode];
    }
  }

  /**
   * Each plot code is recorded according to `Resolve`: matched to its GDP
   * key, or else unmatched. `matched` is a dict over plot codes whose values
   * are all keys of the GDP table.
   */
  lemma ReconciliationOutcome(converter: Dict<string, string>, plotCountries: Dict<string, string>,
                              gdpCountries: Dict<string, Row>)
    ensures var (matched, unmatched) := Reconciliation(converter, plotCountries, gdpCountries);
      && DistinctKeys(matched)
      && (forall p :: p in Keys(plotCountries) ==> Get(matched, p) == Resolve(converter, gdpCountries, p))
      && (forall p :: p in Keys(matched) ==> p in Keys(plotCountries))
      && (forall p :: p in unmatched <==> p in Keys(plotCountries) && Resolve(converter, gdpCountries, p).None?)
      && (forall e :: e in matched ==> e.1 in Keys(gdpCountries))
  {
    ReconciliationMatchedShape(converter, plotCountries, gdpCountries);
    ReconciliationMatched(converter, plotCountries, gdpCountries);
    ReconciliationUnmatched(converter, plotCountries, gdpCountries);
  }

  /**
   * Every plot code ends up in exactly one of `matched.keys()` and
   * `unmatched`: never both, never neither.
   */
  lemma ReconciliationPartition(converter: Dict<string, string>, plotCountries: Dict<string, string>,
                                gdpCountries: Dict<string, Row>)
    ensures var (matched, unmatched) := Reconciliation(converter, plotCountries, gdpCountries);
      && (forall p :: p in Keys(plotCountries) <==> p in Keys(matched) || p in unmatched)
      && (forall p :: !(p in Keys(matched) && p in unmatched))
  {
    ReconciliationOutcome(converter, plotCountries, gdpCountries);
  }

  /** With an empty GDP table nothing is matched and every plot code is unmatched. */
  lemma {:induction false} EmptyGdpTable(converter: Dict<string, string>, plotCountries: Dict<string, string>)
    ensures Reconciliation(converter, plotCountries, []) == ([], set p | p in Keys(plotCountries))
  {
    if plotCountries == [] {
      assert (set p | p in Keys(plotCountries)) == {};
    } else {
      var init := plotCountries[..|plotCountries| - 1];
      var plotCode := plotCountries[|plotCountries| - 1].0;
      EmptyGdpTable(converter, init);
      assert Resolve(converter, [], plotCode) == None;
      assert Keys(plotCountries) == Keys(init) + [plotCode];
      assert (set p | p in Keys(plotCountries)) == (set p | p in Keys(init)) + {plotCode};
    }
  }

  /** The converter scans of two case-variant converters stop at the same entry. */
  lemma {:induction false} HitIgnoresCase(converter: Dict<string, string>, converter': Dict<string, string>,
                                          plotCode: string, plotCode': string, j: nat)
    requires |converter| == |converter'| && j <= |converter|
    requires forall m :: 0 <= m < |converter| ==> Lower(converter[m].0) == Lower(converter'[m].0)
    requires Lower(plotCode) == Lower(plotCode')
    ensures ConverterHitFrom(converter, Lower(plotCode), j) == ConverterHitFrom(converter', Lower(plotCode'), j)
    decreases |converter| - j
  {
    if j < |converter| {
      HitIgnoresCase(converter, converter', plotCode, plotCode', j + 1);
    }
  }

  /**
   * Re-casing the plot code, the converter's plot codes or its data codes
   * leaves the outcome unchanged: the GDP key found keeps the table's own
   * casing.
   */
  lemma ResolveIgnoresCase(converter: Dict<string, string>, converter': Dict<string, string>,
                           gdpCountries: Dict<string, Row>, plotCode: string, plotCode': string)
    requires |converter| == |converter'|
    requires forall j :: 0 <= j < |converter| ==>
      Lower(converter[j].0) == Lower(converter'[j].0) && Upper(converter[j].1) == Upper(converter'[j].1)
    requires Lower(plotCode) == Lower(plotCode')
    ensures Resolve(converter, gdpCountries, plotCode) == Resolve(converter', gdpCountries, plotCode')
  {
    HitIgnoresCase(converter, converter', plotCode, plotCode', 0);
  }

  /** The GDP scans of two tables whose keys agree up to case, position by position, stop at the same entry. */
  lemma {:induction false} KeyIgnoresCase(gdpCountries: Dict<string, Row>, gdpCountries': Dict<string, Row>,
                                          target: string, l: nat)
    requires |gdpCountries| == |gdpCountries'| && l <= |gdpCountries|
    requires forall m :: 0 <= m < |gdpCountries| ==> Upper(gdpCountries[m].0) == Upper(gdpCountries'[m].0)
    ensures GdpKeyFrom(gdpCountries, target, l) == GdpKeyFrom(gdpCountries', target, l)
    decreases |gdpCountries| - l
  {
    if l < |gdpCountries| {
      KeyIgnoresCase(gdpCountries, gdpCountries', target, l + 1);
    }
  }

  /**
   * Re-casing the GDP table's keys leaves the outcome unchanged but for the
   * key recorded, which takes the table's new casing: the plot code
   * resolves to the entry at the same position of either table, or to
   * nothing in both.
   */
  lemma ResolveIgnoresTableCase(converter: Dict<string, string>, gdpCountries: Dict<string, Row>,
                                gdpCountries': Dict<string, Row>, plotCode: string)
    requires |gdpCountries| == |gdpCountries'|
    requires forall m :: 0 <= m < |gdpCountries| ==> Upper(gdpCountries[m].0) == Upper(gdpCountries'[m].0)
    ensures Resolve(converter, gdpCountries, plotCode).None? <==> Resolve(converter, gdpCountries', plotCode).None?
    ensures Resolve(converter, gdpCountries, plotCode).Some? ==>
      exists l :: 0 <= l < |gdpCountries|
        && Resolve(converter, gdpCountries, plotCode) == Some(gdpCountries[l].0)
        && Resolve(converter, gdpCountries', plotCode) == Some(gdpCountries'[l].0)
  {
    var hit := ConverterHitFrom(converter, Lower(plotCode), 0);
    if hit.Some? {
      var target := Upper(converter[hit.value].1);
      KeyIgnoresCase(gdpCountries, gdpCountries', target, 0);
      var key := GdpKeyFrom(gdpCountries, target, 0);
      if key.Some? {
        var l := key.value;
        assert Resolve(converter, gdpCountries, plotCode) == Some(gdpCountries[l].0);
        assert Resolve(converter, gdpCountries', plotCode) == Some(gdpCountries'[l].0);
      }
    }
  }
}
