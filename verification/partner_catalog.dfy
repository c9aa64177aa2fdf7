/** Partner lookup by scope. The partner catalog, which the service reads once
    from a JSON file, is a parameter here: a sequence of records in file order. */
module PartnerCatalog {
  import opened Results
  import opened Text

  /** Name given to a matching record that has no `name` entry. */
  const UNKNOWN_PARTNER: string := "Unknown Partner"

  /** One catalog record; `None` is a key absent from the JSON object. */
  datatype Partner = Partner(name: Option<string>, scopes: Option<seq<string>>)

  function NameOf(p: Partner): string {
    p.name.GetOr(UNKNOWN_PARTNER)
  }

  /** The comparison key of a scope: surrounding whitespace removed, lowercased. */
  function ScopeKey(s: string): (k: string)
    ensures |k| == |Strip(s, WS)|
  {
    Lower(Strip(s, WS))
  }

  /** The keys of the non-blank scopes of a list. */
  function KeySet(scopes: seq<string>): (ks: set<string>)
    ensures forall k :: k in ks ==> k != []
    decreases |scopes|
  {
    if |scopes| == 0 then {}
    else (if Strip(scopes[0], WS) != [] then {ScopeKey(scopes[0])} else {}) + KeySet(scopes[1..])
  }

  /** A key is in the key set iff it is the key of some non-blank scope of the list. */
  lemma {:induction false} KeySetIff(scopes: seq<string>, k: string)
    ensures k in KeySet(scopes) <==> exists i :: 0 <= i < |scopes| && Strip(scopes[i], WS) != [] && ScopeKey(scopes[i]) == k
    decreases |scopes|
  {
    if |scopes| > 0 {
      KeySetIff(scopes[1..], k);
      if k in KeySet(scopes[1..]) {
        var i :| 0 <= i < |scopes| - 1 && Strip(scopes[1..][i], WS) != [] && ScopeKey(scopes[1..][i]) == k;
        assert scopes[i + 1] == scopes[1..][i];
      }
      if exists i :: 0 <= i < |scopes| && Strip(scopes[i], WS) != [] && ScopeKey(scopes[i]) == k {
        var i :| 0 <= i < |scopes| && Strip(scopes[i], WS) != [] && ScopeKey(scopes[i]) == k;
        if i > 0 {
          assert scopes[1..][i - 1] == scopes[i];
        }
      }
    }
  }

  /** A record matches a query key set when its own key set shares an element with it. */
  predicate Matches(p: Partner, query: set<string>) {
    KeySet(p.scopes.GetOr([])) * query != {}
  }

  /** The names of the matching records, in catalog order. */
  function Collect(catalog: seq<Partner>, query: set<string>): (r: seq<string>)
    ensures |r| <= |catalog|
    decreases |catalog|
  {
    if |catalog| == 0 then []
    else (if Matches(catalog[0], query) then [NameOf(catalog[0])] else []) + Collect(catalog[1..], query)
  }

  /** The names of the catalog partners sharing a scope with the query, ignoring
      case and surrounding whitespace; an empty query returns nothing without
      looking at the catalog. */
  function ImpactedPartners(catalog: seq<Partner>, scopes: seq<string>): (r: seq<string>)
    ensures |scopes| == 0 ==> r == []
    ensures |r| <= |catalog|
  {
    if |scopes| == 0 then [] else Collect(catalog, KeySet(scopes))
  }

  /** The result is exactly the matching records, each once, in catalog order:
      `idx` lists the positions of the records that contributed each name. */
  lemma {:induction false} CollectSelects(catalog: seq<Partner>, query: set<string>) returns (idx: seq<nat>)
    ensures |idx| == |Collect(catalog, query)|
    ensures forall k :: 0 <= k < |idx| ==> idx[k] < |catalog| && Collect(catalog, query)[k] == NameOf(catalog[idx[k]])
    ensures forall k, l :: 0 <= k < l < |idx| ==> idx[k] < idx[l]
    ensures forall i :: 0 <= i < |catalog| ==> (Matches(catalog[i], query) <==> i in idx)
    decreases |catalog|
  {
    if |catalog| == 0 {
      idx := [];
    } else {
      var rest := CollectSelects(catalog[1..], query);
      idx := SelectStep(catalog, p => Matches(p, query), Collect(catalog[1..], query), Collect(catalog, query), rest);
    }
  }

  /** One step of `CollectSelects`, for any selection test `hit`: from the
      positions selected in the tail of the catalog, the positions selected
      in the whole of it. */
  lemma SelectStep(catalog: seq<Partner>, hit: Partner -> bool, tail: seq<string>, whole: seq<string>, rest: seq<nat>)
    returns (idx: seq<nat>)
    requires |catalog| > 0
    requires whole == (if hit(catalog[0]) then [NameOf(catalog[0])] else []) + tail
    requires |rest| == |tail|
    requires forall k :: 0 <= k < |rest| ==> rest[k] < |catalog| - 1 && tail[k] == NameOf(catalog[1..][rest[k]])
    requires forall k, l :: 0 <= k < l < |rest| ==> rest[k] < rest[l]
    requires forall i :: 0 <= i < |catalog| - 1 ==> (hit(catalog[1..][i]) <==> i in rest)
    ensures |idx| == |whole|
    ensures forall k :: 0 <= k < |idx| ==> idx[k] < |catalog| && whole[k] == NameOf(catalog[idx[k]])
    ensures forall k, l :: 0 <= k < l < |idx| ==> idx[k] < idx[l]
    ensures forall i :: 0 <= i < |catalog| ==> (hit(catalog[i]) <==> i in idx)
  {
    var shifted := Shift(rest, |catalog| - 1);
    idx := if hit(catalog[0]) then [0] + shifted else shifted;
    SelectedNames(catalog, hit(catalog[0]), tail, whole, rest, shifted, idx);
    SelectedMembers(catalog, hit, rest, shifted, idx);
    if hit(catalog[0]) {
      PrependZero(shifted);
    }
  }

  /** Position 0 in front of increasing positive positions keeps them increasing. */
  lemma PrependZero(shifted: seq<nat>)
    requires forall k, l :: 0 <= k < l < |shifted| ==> 0 < shifted[k] < shifted[l]
    requires 0 !in shifted
    ensures forall k, l :: 0 <= k < l < |[0] + shifted| ==> ([0] + shifted)[k] < ([0] + shifted)[l]
  {
    forall k, l | 0 <= k < l < |[0] + shifted| ensures ([0] + shifted)[k] < ([0] + shifted)[l] {
      assert ([0] + shifted)[l] == shifted[l - 1];
      if k > 0 {
        assert ([0] + shifted)[k] == shifted[k - 1];
      }
    }
  }

  /** The names step of `CollectSelects`: the first record's name, if it
      is selected, then the names the shifted positions select. */
  lemma SelectedNames(catalog: seq<Partner>, hit: bool, tail: seq<string>, whole: seq<string>, rest: seq<nat>, shifted: seq<nat>, idx: seq<nat>)
    requires |catalog| > 0
    requires whole == (if hit then [NameOf(catalog[0])] else []) + tail
    requires |rest| == |tail|
    requires forall k :: 0 <= k < |rest| ==> rest[k] < |catalog| - 1 && tail[k] == NameOf(catalog[1..][rest[k]])
    requires |shifted| == |rest| && forall k :: 0 <= k < |rest| ==> shifted[k] == rest[k] + 1
    requires idx == if hit then [0] + shifted else shifted
    ensures |idx| == |whole|
    ensures forall k :: 0 <= k < |idx| ==> idx[k] < |catalog| && whole[k] == NameOf(catalog[idx[k]])
  {
    var h := if hit then 1 else 0;
    forall k | 0 <= k < |idx| ensures idx[k] < |catalog| && whole[k] == NameOf(catalog[idx[k]]) {
      if k >= h {
        assert idx[k] == shifted[k - h] == rest[k - h] + 1;
        assert whole[k] == tail[k - h];
        assert catalog[1..][rest[k - h]] == catalog[idx[k]];
      }
    }
  }

  /** The membership step of `CollectSelects`: position 0 is selected iff the
      first record is a hit, and a later position iff the shifted one is. */
  lemma SelectedMembers(catalog: seq<Partner>, hit: Partner -> bool, rest: seq<nat>, shifted: seq<nat>, idx: seq<nat>)
    requires |catalog| > 0
    requires forall i :: 0 <= i < |catalog| - 1 ==> (hit(catalog[1..][i]) <==> i in rest)
    requires forall i :: 0 < i <= |catalog| - 1 ==> (i in shifted <==> i - 1 in rest)
    requires 0 !in shifted
    requires idx == if hit(catalog[0]) then [0] + shifted else shifted
    ensures forall i :: 0 <= i < |catalog| ==> (hit(catalog[i]) <==> i in idx)
  {
    forall i | 0 < i < |catalog| ensures hit(catalog[i]) <==> i in idx {
      assert catalog[1..][i - 1] == catalog[i];
      assert i in idx <==> i in shifted;
    }
  }

  /** Every position of `rest` moved up by one, as positions in a list one longer. */
  lemma Shift(rest: seq<nat>, n: nat) returns (shifted: seq<nat>)
    requires forall k :: 0 <= k < |rest| ==> rest[k] < n
    requires forall k, l :: 0 <= k < l < |rest| ==> rest[k] < rest[l]
    ensures |shifted| == |rest|
    ensures forall k :: 0 <= k < |rest| ==> shifted[k] == rest[k] + 1
    ensures forall k, l :: 0 <= k < l < |shifted| ==> 0 < shifted[k] < shifted[l] <= n
    ensures forall i :: 0 < i <= n ==> (i in shifted <==> i - 1 in rest)
    ensures 0 !in shifted
  {
    shifted := seq(|rest|, k requires 0 <= k < |rest| => rest[k] + 1);
    forall i | 0 < i <= n ensures i in shifted <==> i - 1 in rest {
      if i - 1 in rest {
        var k :| 0 <= k < |rest| && rest[k] == i - 1;
        assert shifted[k] == i;
      }
    }
  }

  /** A partner is listed iff one of its scopes equals one of the query scopes
      once both are stripped and lowercased; the names follow catalog order. */
  lemma ImpactedPartnersSelects(catalog: seq<Partner>, scopes: seq<string>) returns (idx: seq<nat>)
    ensures |idx| == |ImpactedPartners(catalog, scopes)|
    ensures forall k :: 0 <= k < |idx| ==> idx[k] < |catalog| && ImpactedPartners(catalog, scopes)[k] == NameOf(catalog[idx[k]])
    ensures forall k, l :: 0 <= k < l < |idx| ==> idx[k] < idx[l]
    ensures forall i :: 0 <= i < |catalog| ==> (Matches(catalog[i], KeySet(scopes)) <==> i in idx)
  {
    if |scopes| == 0 {
      assert KeySet(scopes) == {};
      idx := [];
    } else {
      idx := CollectSelects(catalog, KeySet(scopes));
    }
  }

  /** With no query keys nothing matches. */
  lemma {:induction false} CollectNone(catalog: seq<Partner>)
    ensures Collect(catalog, {}) == []
    decreases |catalog|
  {
    if |catalog| > 0 {
      CollectNone(catalog[1..]);
    }
  }

  /** Blank query scopes are ignored, so a query of only blank strings finds no partner. */
  lemma BlankQueryFindsNothing(catalog: seq<Partner>, scopes: seq<string>)
    requires forall i :: 0 <= i < |scopes| ==> AllIn(scopes[i], WS)
    ensures ImpactedPartners(catalog, scopes) == []
  {
    KeySetBlank(scopes);
    CollectNone(catalog);
  }

  /** Two queries whose scopes agree after stripping and lowercasing find the same partners. */
  lemma QueryIgnoresCaseAndSpace(catalog: seq<Partner>, a: seq<string>, b: seq<string>)
    requires |a| == |b|
    requires forall i :: 0 <= i < |a| ==> ScopeKey(a[i]) == ScopeKey(b[i])
    ensures ImpactedPartners(catalog, a) == ImpactedPartners(catalog, b)
  {
    KeySetByKeys(a, b);
  }

  /** The key set depends only on the keys of the scopes. */
  lemma {:induction false} KeySetByKeys(a: seq<string>, b: seq<string>)
    requires |a| == |b|
    requires forall i :: 0 <= i < |a| ==> ScopeKey(a[i]) == ScopeKey(b[i])
    ensures KeySet(a) == KeySet(b)
    decreases |a|
  {
    if |a| > 0 {
      KeySetByKeys(a[1..], b[1..]);
    }
  }

  /** A query of blank scopes has no keys. */
  lemma {:induction false} KeySetBlank(scopes: seq<string>)
    requires forall i :: 0 <= i < |scopes| ==> AllIn(scopes[i], WS)
    ensures KeySet(scopes) == {}
    decreases |scopes|
  {
    if |scopes| > 0 {
      KeySetBlank(scopes[1..]);
    }
  }

  /** The keys of two concatenated lists are the keys of each. */
  lemma {:induction false} KeySetAppend(a: seq<string>, b: seq<string>)
    ensures KeySet(a + b) == KeySet(a) + KeySet(b)
    decreases |a|
  {
    if |a| == 0 {
      assert a + b == b;
    } else {
      KeySetAppend(a[1..], b);
      assert (a + b)[0] == a[0] && (a + b)[1..] == a[1..] + b;
    }
  }

  /** `a` is `b` with some elements removed (order kept). */
  predicate SubSeq<T(==)>(a: seq<T>, b: seq<T>)
    decreases |b|
  {
    a == [] || (|b| > 0 && ((a[0] == b[0] && SubSeq(a[1..], b[1..])) || SubSeq(a, b[1..])))
  }

  /** Putting an element in front of `b` keeps `a` a subsequence of it. */
  lemma SubSeqCons<T>(a: seq<T>, x: T, b: seq<T>)
    requires SubSeq(a, b)
    ensures SubSeq(a, [x] + b)
  {
    assert ([x] + b)[1..] == b;
  }

  /** A larger key set keeps every partner a smaller one found, in the same order. */
  lemma {:induction false} CollectMonotone(catalog: seq<Partner>, q1: set<string>, q2: set<string>)
    requires q1 <= q2
    ensures SubSeq(Collect(catalog, q1), Collect(catalog, q2))
    decreases |catalog|
  {
    if |catalog| > 0 {
      CollectMonotone(catalog[1..], q1, q2);
      var r1, r2 := Collect(catalog[1..], q1), Collect(catalog[1..], q2);
      var n := NameOf(catalog[0]);
      if Matches(catalog[0], q1) {
        assert Collect(catalog, q1) == [n] + r1 && Collect(catalog, q2) == [n] + r2;
        assert ([n] + r1)[1..] == r1 && ([n] + r2)[1..] == r2;
      } else if Matches(catalog[0], q2) {
        assert Collect(catalog, q1) == r1;
        assert Collect(catalog, q2) == [n] + r2 && ([n] + r2)[1..] == r2;
        SubSeqCons(r1, n, r2);
      } else {
        assert Collect(catalog, q1) == r1 && Collect(catalog, q2) == r2;
      }
    }
  }

  /** Adding scopes to a query never removes a partner from the result. */
  lemma MoreScopesKeepPartners(catalog: seq<Partner>, scopes: seq<string>, extra: seq<string>)
    ensures SubSeq(ImpactedPartners(catalog, scopes), ImpactedPartners(catalog, scopes + extra))
  {
    KeySetAppend(scopes, extra);
    CollectMonotone(catalog, KeySet(scopes), KeySet(scopes + extra));
  }
}
