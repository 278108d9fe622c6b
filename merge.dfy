/**
 * `deepMergeUnique(a, b)` of the sync engine: arrays are concatenated with
 * repeats (by `JSON.stringify`) dropped, objects and arrays are merged key by
 * key, and anything else is `b ?? a`.
 */
module Merging {

  import opened JsonData
  import opened Sequences

  /** The serialisations of a list of values. */
  function Sers(s: seq<Json>): set<string> {
    set i | 0 <= i < |s| :: Serialize(s[i])
  }

  /** No two values serialise alike. */
  predicate DistinctSers(s: seq<Json>) {
    forall i, j :: 0 <= i < j < |s| ==> Serialize(s[i]) != Serialize(s[j])
  }

  /**
   * The `seen`/`out` loop over a list: a value is kept when no value before
   * it serialised the same.
   */
  function Dedup(s: seq<Json>): (r: seq<Json>)
    ensures Sers(r) == Sers(s)
  {
    if s == [] then []
    else
      var t, x := s[..|s| - 1], s[|s| - 1];
      var p := Dedup(t);
      assert s == t + [x];
      SersSnoc(t, x);
      SersSnoc(p, x);
      if Serialize(x) in Sers(p) then p else p + [x]
  }

  lemma SersSnoc(s: seq<Json>, x: Json)
    ensures Sers(s + [x]) == Sers(s) + {Serialize(x)}
  {
    var t := s + [x];
    assert forall i :: 0 <= i < |s| ==> t[i] == s[i];
    assert t[|s|] == x;
  }

  lemma SersAppend(s: seq<Json>, t: seq<Json>)
    ensures Sers(s + t) == Sers(s) + Sers(t)
  {
    var u := s + t;
    assert forall i :: 0 <= i < |s| ==> u[i] == s[i];
    assert forall i :: 0 <= i < |t| ==> u[|s| + i] == t[i];
    forall k | k in Sers(u)
      ensures k in Sers(s) + Sers(t)
    {
      var i :| 0 <= i < |u| && Serialize(u[i]) == k;
      if i >= |s| {
        assert u[i] == t[i - |s|];
      }
    }
  }

  /** A value goes in after the others exactly when its serialisation was not seen before. */
  lemma DedupSnoc(s: seq<Json>, x: Json)
    ensures Dedup(s + [x]) == if Serialize(x) in Sers(s) then Dedup(s) else Dedup(s) + [x]
  {
    assert (s + [x])[..|s|] == s;
  }

  /** The result never holds two values that serialise alike. */
  lemma {:induction false} DedupDistinct(s: seq<Json>)
    ensures DistinctSers(Dedup(s))
  {
    if s != [] {
      DedupDistinct(s[..|s| - 1]);
    }
  }

  /** The result keeps values of `s`, in their order. */
  lemma {:induction false} DedupSubsequence(s: seq<Json>)
    ensures IsSubsequence(Dedup(s), s)
  {
    if s != [] {
      var p, x := s[..|s| - 1], s[|s| - 1];
      DedupSubsequence(p);
      assert s == p + [x];
      if Serialize(x) in Sers(Dedup(p)) {
        SubsequenceSkip(Dedup(p), p, x);
      } else {
        SubsequenceKeep(Dedup(p), p, x);
      }
    }
  }

  /** A list without repeats comes through unchanged. */
  lemma {:induction false} DedupOfDistinct(s: seq<Json>)
    requires DistinctSers(s)
    ensures Dedup(s) == s
  {
    if s != [] {
      var p, x := s[..|s| - 1], s[|s| - 1];
      DedupOfDistinct(p);
      assert s == p + [x];
      assert Serialize(x) !in Sers(p);
    }
  }

  /** Values whose serialisations were all seen already add nothing. */
  lemma {:induction false} DedupAbsorb(s: seq<Json>, t: seq<Json>)
    requires Sers(t) <= Sers(s)
    ensures Dedup(s + t) == Dedup(s)
    decreases |t|
  {
    if t != [] {
      var t', x := t[..|t| - 1], t[|t| - 1];
      assert Sers(t) == Sers(t') + {Serialize(x)} by { SersSnoc(t', x); assert t == t' + [x]; }
      DedupAbsorb(s, t');
      assert s + t == (s + t') + [x];
      SersAppend(s, t');
      DedupSnoc(s + t', x);
    } else {
      assert s + t == s;
    }
  }

  // ---------------------------------------------------------------------------
  // deepMergeUnique

  /**
   * `deepMergeUnique(a, b)`: two arrays give an array holding the items of
   * both, two object-like values an object, and `null` never overrides.
   */
  function Merge(a: Json, b: Json): (r: Json)
    ensures a.JArray? && b.JArray? ==> r.JArray? && Sers(r.items) == Sers(a.items) + Sers(b.items)
    ensures IsObjectLike(a) && IsObjectLike(b) && !(a.JArray? && b.JArray?) ==> r.JObject?
    ensures r.JNull? <==> a.JNull? && b.JNull?
    decreases b, 1
  {
    if a.JArray? && b.JArray? then
      SersAppend(a.items, b.items);
      JArray(Dedup(a.items + b.items))
    else if IsObjectLike(a) && IsObjectLike(b) then JObject(MergeFrom(Spread(a), b, 0))
    else if b.JNull? then a
    else b
  }

  /**
   * The key loop `for (const k of Object.keys(b))` from the `i`-th key on, over
   * the properties `out` built so far: a present key is merged in place, an
   * absent one is appended.
   */
  function MergeFrom(out: seq<(string, Json)>, b: Json, i: nat): seq<(string, Json)>
    requires IsObjectLike(b) && i <= |Spread(b)|
    decreases b, 0, |Spread(b)| - i
  {
    var es := Spread(b);
    if i == |es| then out
    else
      var k, v := es[i].0, es[i].1;
      assert v < b by {
        if b.JObject? {
          assert es[i] in b.entries;
        }
      }
      MergeFrom(Step(out, k, v), b, i + 1)
  }

  /** One turn of the key loop: `k in out ? out[k] = merge(out[k], v) : out[k] = v`. */
  function Step(out: seq<(string, Json)>, k: string, v: Json): seq<(string, Json)>
    decreases v, 2
  {
    if HasKey(out, k) then Update(out, k, Merge(Lookup(out, k), v)) else out + [(k, v)]
  }

  /**
   * What a key holds once `b`'s remaining properties `rest` are merged into
   * `out`: a key of both is merged, a key of one side keeps that side's value.
   */
  function Expected(out: seq<(string, Json)>, rest: seq<(string, Json)>, k: string): Json {
    if HasKey(rest, k) then
      if HasKey(out, k) then Merge(Lookup(out, k), Lookup(rest, k)) else Lookup(rest, k)
    else if HasKey(out, k) then Lookup(out, k)
    else JNull
  }

  lemma DistinctKeysTail(es: seq<(string, Json)>)
    requires DistinctKeys(es) && es != []
    ensures DistinctKeys(es[1..]) && !HasKey(es[1..], es[0].0)
  {
  }

  /** The key loop takes the `i`-th key and goes on from the next. */
  lemma MergeFromUnfold(out: seq<(string, Json)>, b: Json, i: nat)
    requires IsObjectLike(b) && i < |Spread(b)|
    ensures MergeFrom(out, b, i) == MergeFrom(Step(out, Spread(b)[i].0, Spread(b)[i].1), b, i + 1)
  {
  }

  /** One turn of the key loop appends its key exactly when `out` lacks it. */
  lemma StepKeys(out: seq<(string, Json)>, k0: string, v0: Json)
    ensures Keys(Step(out, k0, v0)) == Keys(out) + (if HasKey(out, k0) then [] else [k0])
  {
    if !HasKey(out, k0) {
      LookupAppend(out, k0, v0);
    } else {
      assert Keys(out) + [] == Keys(out);
    }
  }

  /** A turn that would set a key to the value it holds changes nothing. */
  lemma StepFixed(out: seq<(string, Json)>, k0: string, v0: Json)
    requires HasKey(out, k0) && Merge(Lookup(out, k0), v0) == Lookup(out, k0)
    ensures Step(out, k0, v0) == out
  {
    UpdateSame(out, k0);
  }

  /** One turn of the key loop: the properties after it, key by key. */
  lemma MergeStep(out: seq<(string, Json)>, k0: string, v0: Json, out': seq<(string, Json)>)
    requires out' == Step(out, k0, v0)
    ensures |out| <= |out'| && Keys(out')[..|out|] == Keys(out)
    ensures forall k :: HasKey(out', k) <==> HasKey(out, k) || k == k0
    ensures Lookup(out', k0) == if HasKey(out, k0) then Merge(Lookup(out, k0), v0) else v0
    ensures forall k :: k != k0 && HasKey(out, k) ==> Lookup(out', k) == Lookup(out, k)
    ensures DistinctKeys(out) ==> DistinctKeys(out')
  {
    if !HasKey(out, k0) {
      LookupAppend(out, k0, v0);
      assert Keys(out')[..|out|] == Keys(out);
    } else {
      assert Keys(out') == Keys(out);
    }
  }

  /** The remaining properties of `b` from the `i`-th on: the first, then the rest. */
  lemma RestSplit(b: Json, i: nat)
    requires IsObjectLike(b) && i < |Spread(b)| && DistinctKeys(Spread(b))
    ensures var es := Spread(b);
      es[i..][0] == es[i] && es[i..][1..] == es[i + 1..]
      && !HasKey(es[i + 1..], es[i].0)
      && (forall k :: HasKey(es[i..], k) <==> k == es[i].0 || HasKey(es[i + 1..], k))
      && (forall k :: k != es[i].0 && HasKey(es[i..], k) ==> Lookup(es[i..], k) == Lookup(es[i + 1..], k))
      && Lookup(es[i..], es[i].0) == es[i].1
  {
    var es := Spread(b);
    var rest' := es[i + 1..];
    forall j | 0 <= j < |rest'|
      ensures rest'[j].0 != es[i].0
    {
      assert rest'[j] == es[i + 1 + j];
    }
    assert Keys(es[i..]) == [es[i].0] + Keys(rest');
  }

  /**
   * The key loop from the `i`-th key of `b` on: the keys of the result are
   * those of `out` and of the remaining keys of `b`, `out`'s keys first and
   * in their order, and no key twice when `out` has none twice.
   */
  lemma {:induction false} MergeFromKeys(out: seq<(string, Json)>, b: Json, i: nat)
    requires IsObjectLike(b) && i <= |Spread(b)| && DistinctKeys(Spread(b))
    ensures var r := MergeFrom(out, b, i);
      |out| <= |r| && Keys(r)[..|out|] == Keys(out)
      && (forall k :: HasKey(r, k) <==> HasKey(out, k) || HasKey(Spread(b)[i..], k))
      && (DistinctKeys(out) ==> DistinctKeys(r))
    decreases |Spread(b)| - i
  {
    var es := Spread(b);
    if i < |es| {
      var k0, v0 := es[i].0, es[i].1;
      var out' := Step(out, k0, v0);
      assert MergeFrom(out, b, i) == MergeFrom(out', b, i + 1);
      RestSplit(b, i);
      MergeStep(out, k0, v0, out');
      MergeFromKeys(out', b, i + 1);
      var r := MergeFrom(out', b, i + 1);
      PrefixOfPrefix(Keys(r), Keys(out'), Keys(out));
    } else {
      assert es[i..] == [];
    }
  }

  lemma PrefixOfPrefix(a: seq<string>, b: seq<string>, c: seq<string>)
    requires |b| <= |a| && a[..|b|] == b && |c| <= |b| && b[..|c|] == c
    ensures a[..|c|] == c
  {
    assert a[..|c|] == a[..|b|][..|c|];
  }

  /** The key loop from the `i`-th key of `b` on: each key ends up with its `Expected` value. */
  lemma {:induction false} MergeFromValues(out: seq<(string, Json)>, b: Json, i: nat)
    requires IsObjectLike(b) && i <= |Spread(b)| && DistinctKeys(Spread(b))
    ensures var r := MergeFrom(out, b, i);
      forall k :: HasKey(r, k) ==> Lookup(r, k) == Expected(out, Spread(b)[i..], k)
    decreases |Spread(b)| - i
  {
    var es := Spread(b);
    MergeFromKeys(out, b, i);
    if i < |es| {
      var k0, v0 := es[i].0, es[i].1;
      var out' := Step(out, k0, v0);
      MergeFromUnfold(out, b, i);
      RestSplit(b, i);
      MergeStep(out, k0, v0, out');
      MergeFromValues(out', b, i + 1);
    } else {
      assert es[i..] == [];
    }
  }

  /** The array case of `deepMergeUnique`: the `seen` set and the `out` list filled in one pass. */
  method DedupList(all: seq<Json>) returns (out: seq<Json>)
    ensures out == Dedup(all)
  {
    var seen: set<string> := {};
    out := [];
    var i := 0;
    while i < |all|
      invariant 0 <= i <= |all|
      invariant out == Dedup(all[..i])
      invariant seen == Sers(out)
    {
      var it := all[i];
      var key := Serialize(it);
      assert all[..i + 1] == all[..i] + [it];
      DedupSnoc(all[..i], it);
      if key !in seen {
        SersSnoc(out, it);
        seen := seen + {key};
        out := out + [it];
      }
      i := i + 1;
    }
    assert all[..|all|] == all;
  }

  /** `deepMergeUnique` as the program runs it: the `seen` set and `out` list, and the key loop. */
  method DeepMergeUnique(a: Json, b: Json) returns (r: Json)
    ensures r == Merge(a, b)
    decreases b
  {
    if a.JArray? && b.JArray? {
      var out := DedupList(a.items + b.items);
      return JArray(out);
    }
    if IsObjectLike(a) && IsObjectLike(b) {
      var out := Spread(a);
      var props := Spread(b);
      var i := 0;
      while i < |props|
        invariant 0 <= i <= |props|
        invariant MergeFrom(out, b, i) == MergeFrom(Spread(a), b, 0)
      {
        var k, v := props[i].0, props[i].1;
        assert v < b by {
          if b.JObject? {
            assert props[i] in b.entries;
          }
        }
        MergeFromUnfold(out, b, i);
        if HasKey(out, k) {
          var merged := DeepMergeUnique(Lookup(out, k), v);
          out := Update(out, k, merged);
        } else {
          out := out + [(k, v)];
        }
        i := i + 1;
      }
      return JObject(out);
    }
    if b.JNull? {
      return a;
    }
    return b;
  }

  // ---------------------------------------------------------------------------
  // What the merge promises

  /**
   * Two arrays: `a ++ b` with only the first value of each serialisation kept,
   * in order; no two values of the result serialise alike and every value of
   * `a` and of `b` has one of its serialisation in it.
   */
  lemma MergeArrays(x: seq<Json>, y: seq<Json>)
    ensures Merge(JArray(x), JArray(y)) == JArray(Dedup(x + y))
    ensures var r := Merge(JArray(x), JArray(y)).items;
      DistinctSers(r) && Sers(r) == Sers(x) + Sers(y) && IsSubsequence(r, x + y)
  {
    DedupDistinct(x + y);
    DedupSubsequence(x + y);
    SersAppend(x, y);
  }

  /**
   * Arrays or objects, not both arrays: an object with the keys of both, the
   * keys of `a` first and in their order; a key of one side keeps that
   * side's value and a shared key holds the merge of the two values.
   */
  lemma MergeObjects(a: Json, b: Json)
    requires IsObjectLike(a) && IsObjectLike(b) && !(a.JArray? && b.JArray?)
    requires DistinctKeys(Spread(b))
    ensures var r := Merge(a, b);
      r.JObject?
      && |Spread(a)| <= |r.entries| && Keys(r.entries)[..|Spread(a)|] == Keys(Spread(a))
      && (forall k :: HasKey(r.entries, k) <==> HasKey(Spread(a), k) || HasKey(Spread(b), k))
      && (forall k :: HasKey(r.entries, k) ==> Lookup(r.entries, k) == Expected(Spread(a), Spread(b), k))
      && (DistinctKeys(Spread(a)) ==> DistinctKeys(r.entries))
  {
    assert Spread(b)[0..] == Spread(b);
    MergeFromKeys(Spread(a), b, 0);
    MergeFromValues(Spread(a), b, 0);
  }

  /** Anything else: `b`, unless `b` is null; so the second argument wins a scalar conflict. */
  lemma MergeScalars(a: Json, b: Json)
    requires !(IsObjectLike(a) && IsObjectLike(b))
    ensures b.JNull? ==> Merge(a, b) == a
    ensures !b.JNull? ==> Merge(a, b) == b
  {
  }

  /**
   * Values as JavaScript and `JSON.parse` produce them, all the way down:
   * object keys are distinct, and so (for the merge to be repeatable) are
   * the serialisations of array elements.
   */
  predicate Normal(j: Json)
    decreases j
  {
    match j
    case JArray(items) => DistinctSers(items) && forall x :: x in items ==> Normal(x)
    case JObject(es) => DistinctKeys(es) && forall e :: e in es ==> Normal(e.1)
    case _ => true
  }

  lemma {:induction false} LookupDistinct(es: seq<(string, Json)>, j: nat)
    requires DistinctKeys(es) && j < |es|
    ensures HasKey(es, es[j].0) && Lookup(es, es[j].0) == es[j].1
  {
    assert es[j].0 == Keys(es)[j];
    if j > 0 {
      LookupDistinct(es[1..], j - 1);
    }
  }

  /** The entry `Lookup` reads. */
  lemma {:induction false} LookupAt(es: seq<(string, Json)>, k: string) returns (j: nat)
    requires HasKey(es, k)
    ensures j < |es| && es[j] == (k, Lookup(es, k))
  {
    if es[0].0 == k {
      j := 0;
    } else {
      assert k in Keys(es[1..]);
      var j' := LookupAt(es[1..], k);
      j := j' + 1;
    }
  }

  lemma SpreadNormal(b: Json)
    requires Normal(b) && IsObjectLike(b)
    ensures DistinctKeys(Spread(b))
    ensures forall j :: 0 <= j < |Spread(b)| ==> Normal(Spread(b)[j].1)
  {
    if b.JArray? {
      IndexedDistinct(b.items, 0);
      assert forall j :: 0 <= j < |Spread(b)| ==> Spread(b)[j].1 in b.items;
    } else {
      assert forall j :: 0 <= j < |Spread(b)| ==> Spread(b)[j] in b.entries;
    }
  }

  /** Keys that the key loop would set to the values they already hold leave `out` as it is. */
  lemma {:induction false} MergeFromFixed(out: seq<(string, Json)>, b: Json, i: nat)
    requires IsObjectLike(b) && i <= |Spread(b)|
    requires forall j :: i <= j < |Spread(b)| ==>
      HasKey(out, Spread(b)[j].0) && Merge(Lookup(out, Spread(b)[j].0), Spread(b)[j].1) == Lookup(out, Spread(b)[j].0)
    ensures MergeFrom(out, b, i) == out
    decreases |Spread(b)| - i
  {
    if i < |Spread(b)| {
      var k0, v0 := Spread(b)[i].0, Spread(b)[i].1;
      MergeFromUnfold(out, b, i);
      StepFixed(out, k0, v0);
      MergeFromFixed(out, b, i + 1);
    }
  }

  /** A normal value merged with itself is itself. */
  lemma {:induction false} SelfMerge(x: Json)
    requires Normal(x)
    ensures Merge(x, x) == x
    decreases x
  {
    if x.JArray? {
      DedupAbsorb(x.items, x.items);
      DedupOfDistinct(x.items);
    } else if x.JObject? {
      var es := x.entries;
      assert Spread(x) == es;
      forall j | 0 <= j < |es|
        ensures HasKey(es, es[j].0) && Merge(Lookup(es, es[j].0), es[j].1) == Lookup(es, es[j].0)
      {
        LookupDistinct(es, j);
        assert es[j] in es;
        SelfMerge(es[j].1);
      }
      MergeFromFixed(es, x, 0);
    }
  }

  /**
   * Merging the same normal `b` a second time adds nothing:
   * `merge(merge(a, b), b) == merge(a, b)`.
   */
  lemma {:induction false} MergeTwice(a: Json, b: Json)
    requires Normal(b)
    ensures Merge(Merge(a, b), b) == Merge(a, b)
    decreases b
  {
    var m := Merge(a, b);
    if a.JArray? && b.JArray? {
      var s := a.items + b.items;
      SersAppend(a.items, b.items);
      SersAppend(Dedup(s), b.items);
      DedupAbsorb(Dedup(s), b.items);
      DedupDistinct(s);
      DedupOfDistinct(Dedup(s));
    } else if IsObjectLike(a) && IsObjectLike(b) {
      SpreadNormal(b);
      MergeObjects(a, b);
      var sa, es := Spread(a), Spread(b);
      var r := m.entries;
      assert Spread(m) == r;
      forall j | 0 <= j < |es|
        ensures HasKey(r, es[j].0) && Merge(Lookup(r, es[j].0), es[j].1) == Lookup(r, es[j].0)
      {
        var k, v := es[j].0, es[j].1;
        LookupDistinct(es, j);
        assert v < b by {
          if b.JObject? {
            assert es[j] in b.entries;
          }
        }
        if HasKey(sa, k) {
          MergeTwice(Lookup(sa, k), v);
        } else {
          SelfMerge(v);
        }
      }
      MergeFromFixed(r, b, 0);
    } else if !b.JNull? {
      SelfMerge(b);
    }
  }

  /** The merge of two normal values is normal, so a merged document can be merged again. */
  lemma {:induction false} NormalMerge(a: Json, b: Json)
    requires Normal(a) && Normal(b)
    ensures Normal(Merge(a, b))
    decreases b
  {
    if a.JArray? && b.JArray? {
      var s := a.items + b.items;
      DedupDistinct(s);
      DedupSubsequence(s);
      SubsequenceMembers(Dedup(s), s);
    } else if IsObjectLike(a) && IsObjectLike(b) {
      SpreadNormal(a);
      SpreadNormal(b);
      MergeObjects(a, b);
      var sa, sb := Spread(a), Spread(b);
      var r := Merge(a, b).entries;
      forall e | e in r
        ensures Normal(e.1)
      {
        var j :| 0 <= j < |r| && r[j] == e;
        LookupDistinct(r, j);
        var k := e.0;
        if HasKey(sb, k) {
          var jb := LookupAt(sb, k);
          if HasKey(sa, k) {
            var ja := LookupAt(sa, k);
            assert Lookup(sb, k) < b by {
              if b.JObject? {
                assert sb[jb] in b.entries;
              }
            }
            NormalMerge(Lookup(sa, k), Lookup(sb, k));
          }
        } else {
          var ja := LookupAt(sa, k);
        }
      }
    }
  }

  /**
   * Without normality the second merge is not idle: an object whose array
   * repeats a value is taken over as it is by the first merge and
   * de-duplicated by the second.
   */
  lemma MergeTwiceNeedsNormal()
    ensures var b := JObject([("k", JArray([JNumber(1), JNumber(1)]))]);
      Merge(JObject([]), b) == b && Merge(Merge(JObject([]), b), b) == JObject([("k", JArray([JNumber(1)]))])
  {
    var one := JNumber(1);
    var arr := JArray([one, one]);
    var b := JObject([("k", arr)]);
    assert Spread(b) == [("k", arr)];
    assert Step([], "k", arr) == [("k", arr)];
    assert MergeFrom([("k", arr)], b, 1) == [("k", arr)];
    assert Merge(JObject([]), b) == b;
    DedupOnes(one);
    assert Merge(arr, arr) == JArray([one]);
    assert Step([("k", arr)], "k", arr) == [("k", JArray([one]))];
    assert MergeFrom([("k", JArray([one]))], b, 1) == [("k", JArray([one]))];
  }

  /** Appending a value already kept changes nothing. */
  lemma DedupRepeat(x: Json, s: seq<Json>)
    requires s != [] && s[0] == x && Dedup(s) == [x]
    ensures Dedup(s + [x]) == [x]
  {
    DedupSnoc(s, x);
  }

  lemma DedupOnes(x: Json)
    ensures Dedup([x, x] + [x, x]) == [x]
  {
    DedupSnoc([], x);
    assert [] + [x] == [x];
    DedupRepeat(x, [x]);
    assert [x] + [x] == [x, x];
    DedupRepeat(x, [x, x]);
    assert [x, x] + [x] == [x, x, x];
    DedupRepeat(x, [x, x, x]);
    assert [x, x, x] + [x] == [x, x] + [x, x];
  }

  // ---------------------------------------------------------------------------
  // Pulling the same remote payload twice

  /** The values of `t`, in order, whose serialisation is neither in `seen` nor taken before. */
  function Fresh(seen: set<string>, t: seq<Json>): seq<Json> {
    if t == [] then []
    else
      var p := Fresh(seen, t[..|t| - 1]);
      var x := t[|t| - 1];
      if Serialize(x) in seen + Sers(p) then p else p + [x]
  }

  lemma FreshSnoc(seen: set<string>, t: seq<Json>, x: Json)
    ensures Fresh(seen, t + [x]) ==
      if Serialize(x) in seen + Sers(Fresh(seen, t)) then Fresh(seen, t) else Fresh(seen, t) + [x]
  {
    assert (t + [x])[..|t|] == t;
  }

  lemma {:induction false} FreshSers(seen: set<string>, t: seq<Json>)
    ensures seen + Sers(Fresh(seen, t)) == seen + Sers(t)
  {
    if t != [] {
      var t', x := t[..|t| - 1], t[|t| - 1];
      FreshSers(seen, t');
      SersSnoc(t', x);
      SersSnoc(Fresh(seen, t'), x);
      assert t == t' + [x];
    }
  }

  /** De-duplicating `s + t` is de-duplicating `s`, then the fresh values of `t`. */
  lemma {:induction false} DedupSplit(s: seq<Json>, t: seq<Json>)
    ensures Dedup(s + t) == Dedup(s) + Fresh(Sers(s), t)
    decreases |t|
  {
    if t == [] {
      assert s + t == s;
    } else {
      var t', x := t[..|t| - 1], t[|t| - 1];
      assert t == t' + [x];
      assert s + t == (s + t') + [x];
      DedupSplit(s, t');
      DedupSnoc(s + t', x);
      SersAppend(s, t');
      FreshSers(Sers(s), t');
    }
  }

  /** Taking the fresh values a second time keeps all of them. */
  lemma {:induction false} FreshIdem(seen: set<string>, t: seq<Json>)
    ensures Fresh(seen, Fresh(seen, t)) == Fresh(seen, t)
  {
    if t != [] {
      var t', x := t[..|t| - 1], t[|t| - 1];
      var p := Fresh(seen, t');
      FreshIdem(seen, t');
      if Serialize(x) !in seen + Sers(p) {
        FreshSnoc(seen, p, x);
      }
    }
  }

  /** The keys of `ks`, in order, that are not among `have`. */
  function NewKeys(have: seq<string>, ks: seq<string>): seq<string> {
    if ks == [] then []
    else (if ks[0] in have then [] else [ks[0]]) + NewKeys(have, ks[1..])
  }

  lemma {:induction false} NewKeysAppend(have: seq<string>, xs: seq<string>, ys: seq<string>)
    ensures NewKeys(have, xs + ys) == NewKeys(have, xs) + NewKeys(have, ys)
  {
    if xs != [] {
      assert (xs + ys)[1..] == xs[1..] + ys;
      NewKeysAppend(have, xs[1..], ys);
    } else {
      assert xs + ys == ys;
    }
  }

  lemma {:induction false} NewKeysOfOwn(have: seq<string>, ks: seq<string>)
    requires forall k :: k in ks ==> k in have
    ensures NewKeys(have, ks) == []
  {
    if ks != [] {
      NewKeysOfOwn(have, ks[1..]);
    }
  }

  lemma {:induction false} NewKeysOfNew(have: seq<string>, ks: seq<string>)
    requires forall k :: k in ks ==> k !in have
    ensures NewKeys(have, ks) == ks
  {
    if ks != [] {
      NewKeysOfNew(have, ks[1..]);
    }
  }

  lemma {:induction false} NewKeysAreNew(have: seq<string>, ks: seq<string>)
    ensures forall k :: k in NewKeys(have, ks) ==> k !in have && k in ks
  {
    if ks != [] {
      NewKeysAreNew(have, ks[1..]);
    }
  }

  /** Taking one more key `k0` first: the keys so far, then the new keys of the others. */
  lemma NewKeysStep(have: seq<string>, k0: string, ks: seq<string>)
    requires k0 !in ks
    ensures var have' := have + (if k0 in have then [] else [k0]);
      have' + NewKeys(have', ks) == have + NewKeys(have, [k0] + ks)
  {
    assert ([k0] + ks)[1..] == ks;
    if k0 !in have {
      NewKeysIgnore(have, k0, ks);
    } else {
      assert have + [] == have;
    }
  }

  /** The keys of the properties from the `i`-th on: the `i`-th key, then the keys after it, which it is not among. */
  lemma KeysSuffixSplit(es: seq<(string, Json)>, i: nat)
    requires i < |es| && DistinctKeys(es)
    ensures Keys(es[i..]) == [es[i].0] + Keys(es[i + 1..])
    ensures es[i].0 !in Keys(es[i + 1..])
  {
    var rest := es[i + 1..];
    assert es[i..][1..] == rest;
    forall j | 0 <= j < |rest|
      ensures Keys(rest)[j] != es[i].0
    {
      assert rest[j] == es[i + 1 + j];
    }
  }

  /** A key that `ks` does not hold makes no difference to the new keys of `ks`. */
  lemma {:induction false} NewKeysIgnore(have: seq<string>, k0: string, ks: seq<string>)
    requires k0 !in ks
    ensures NewKeys(have + [k0], ks) == NewKeys(have, ks)
  {
    if ks != [] {
      NewKeysIgnore(have, k0, ks[1..]);
    }
  }

  /** The key loop appends the keys `out` lacks, in the order `b` lists them. */
  lemma {:induction false} MergeFromKeysExact(out: seq<(string, Json)>, b: Json, i: nat)
    requires IsObjectLike(b) && i <= |Spread(b)| && DistinctKeys(Spread(b))
    ensures Keys(MergeFrom(out, b, i)) == Keys(out) + NewKeys(Keys(out), Keys(Spread(b)[i..]))
    decreases |Spread(b)| - i
  {
    var es := Spread(b);
    if i < |es| {
      var k0, v0 := es[i].0, es[i].1;
      MergeFromUnfold(out, b, i);
      KeysSuffixSplit(es, i);
      MergeFromKeysExact(Step(out, k0, v0), b, i + 1);
      StepKeys(out, k0, v0);
      NewKeysStep(Keys(out), k0, Keys(es[i + 1..]));
    } else {
      assert es[i..] == [];
    }
  }

  /** Two property lists without repeated keys, with the same keys in order and the same values, are equal. */
  lemma EntriesExt(x: seq<(string, Json)>, y: seq<(string, Json)>)
    requires DistinctKeys(x) && DistinctKeys(y) && Keys(x) == Keys(y)
    requires forall k :: HasKey(x, k) ==> Lookup(x, k) == Lookup(y, k)
    ensures x == y
  {
    forall j | 0 <= j < |x|
      ensures x[j] == y[j]
    {
      assert x[j].0 == Keys(x)[j] == Keys(y)[j] == y[j].0;
      LookupDistinct(x, j);
      LookupDistinct(y, j);
    }
  }

  /** What `JSON.parse` produces: no object repeats a key, all the way down. */
  predicate Parsed(j: Json)
    decreases j
  {
    match j
    case JArray(items) => forall x :: x in items ==> Parsed(x)
    case JObject(es) => DistinctKeys(es) && forall e :: e in es ==> Parsed(e.1)
    case _ => true
  }

  lemma {:induction false} NormalIsParsed(j: Json)
    requires Normal(j)
    ensures Parsed(j)
    decreases j
  {
    match j
    case JArray(items) =>
      forall x | x in items
        ensures Parsed(x)
      {
        NormalIsParsed(x);
      }
    case JObject(es) =>
      forall e | e in es
        ensures Parsed(e.1)
      {
        NormalIsParsed(e.1);
      }
    case _ =>
  }

  lemma ParsedSpread(b: Json)
    requires Parsed(b) && IsObjectLike(b)
    ensures DistinctKeys(Spread(b))
    ensures forall j :: 0 <= j < |Spread(b)| ==> Parsed(Spread(b)[j].1)
  {
    if b.JArray? {
      IndexedDistinct(b.items, 0);
      assert forall j :: 0 <= j < |Spread(b)| ==> Spread(b)[j].1 in b.items;
    } else {
      assert forall j :: 0 <= j < |Spread(b)| ==> Spread(b)[j] in b.entries;
    }
  }

  /** Truthy values merge to a truthy value, so `merged || {}` is `merged`. */
  lemma MergeTruthy(a: Json, b: Json)
    requires Truthy(a) && Truthy(b)
    ensures Truthy(Merge(a, b))
  {
  }

  /** Arrays: `dedup(r ++ dedup(r ++ l)) == dedup(r ++ l)` when `r` has no repeats. */
  lemma DedupLeftAbsorb(r: seq<Json>, l: seq<Json>)
    requires DistinctSers(r)
    ensures Dedup(r + Dedup(r + l)) == Dedup(r + l)
  {
    DedupOfDistinct(r);
    DedupSplit(r, l);
    var f := Fresh(Sers(r), l);
    assert r + Dedup(r + l) == (r + r) + f;
    DedupSplit(r + r, f);
    DedupAbsorb(r, r);
    SersAppend(r, r);
    FreshIdem(Sers(r), l);
  }

  /** The keys of `merge(a, b)` for objects: `a`'s keys, then the keys only `b` has. */
  lemma ObjectKeys(a: Json, b: Json)
    requires IsObjectLike(a) && IsObjectLike(b) && !(a.JArray? && b.JArray?)
    requires DistinctKeys(Spread(a)) && DistinctKeys(Spread(b))
    ensures Merge(a, b).JObject? && DistinctKeys(Merge(a, b).entries)
    ensures Keys(Merge(a, b).entries) == Keys(Spread(a)) + NewKeys(Keys(Spread(a)), Keys(Spread(b)))
  {
    assert Spread(b)[0..] == Spread(b);
    MergeFromKeys(Spread(a), b, 0);
    MergeFromKeysExact(Spread(a), b, 0);
  }

  /** The keys of `merge(a, merge(a, b))` are those of `merge(a, b)`, in the same order. */
  lemma ObjectKeysLeftAbsorb(a: Json, b: Json)
    requires IsObjectLike(a) && IsObjectLike(b) && !(a.JArray? && b.JArray?)
    requires DistinctKeys(Spread(a)) && DistinctKeys(Spread(b))
    ensures Merge(a, b).JObject? && DistinctKeys(Merge(a, b).entries)
    ensures Merge(a, Merge(a, b)).JObject?
    ensures Keys(Merge(a, Merge(a, b)).entries) == Keys(Merge(a, b).entries)
  {
    var m := Merge(a, b);
    ObjectKeys(a, b);
    assert Spread(m) == m.entries;
    ObjectKeys(a, m);
    NewKeysTwice(Keys(Spread(a)), Keys(Spread(b)));
  }

  lemma NewKeysTwice(ka: seq<string>, kb: seq<string>)
    ensures NewKeys(ka, ka + NewKeys(ka, kb)) == NewKeys(ka, kb)
  {
    var n := NewKeys(ka, kb);
    NewKeysAppend(ka, ka, n);
    NewKeysOfOwn(ka, ka);
    NewKeysAreNew(ka, kb);
    NewKeysOfNew(ka, n);
  }

  /** Objects: every key of `merge(a, merge(a, b))` holds what it holds in `merge(a, b)`. */
  lemma {:induction false} ObjectsLeftAbsorb(a: Json, b: Json)
    requires IsObjectLike(a) && IsObjectLike(b) && !(a.JArray? && b.JArray?)
    requires Normal(a) && Parsed(b)
    ensures Merge(a, Merge(a, b)) == Merge(a, b)
    decreases a, 0
  {
    SpreadNormal(a);
    ParsedSpread(b);
    var sa, sb := Spread(a), Spread(b);
    var m := Merge(a, b);
    ObjectKeysLeftAbsorb(a, b);
    MergeObjects(a, b);
    var me := m.entries;
    assert Spread(m) == me;
    MergeObjects(a, m);
    var r := Merge(a, m).entries;
    forall k | HasKey(r, k)
      ensures Lookup(r, k) == Lookup(me, k)
    {
      if HasKey(sa, k) {
        var ja := LookupAt(sa, k);
        assert sa[ja].1 < a by {
          if a.JObject? {
            assert sa[ja] in a.entries;
          }
        }
        if HasKey(sb, k) {
          var jb := LookupAt(sb, k);
          MergeLeftAbsorb(Lookup(sa, k), Lookup(sb, k));
        } else {
          SelfMerge(Lookup(sa, k));
        }
      }
    }
    EntriesExt(r, me);
  }

  /**
   * Merging `b` over a normal `a` and then merging the result over `a`
   * again gives the same value: `merge(a, merge(a, b)) == merge(a, b)`.
   */
  lemma {:induction false} MergeLeftAbsorb(a: Json, b: Json)
    requires Normal(a) && Parsed(b)
    ensures Merge(a, Merge(a, b)) == Merge(a, b)
    decreases a, 1
  {
    if a.JArray? && b.JArray? {
      DedupLeftAbsorb(a.items, b.items);
    } else if IsObjectLike(a) && IsObjectLike(b) {
      ObjectsLeftAbsorb(a, b);
    } else if b.JNull? {
      SelfMerge(a);
    }
  }

  // ---------------------------------------------------------------------------
  // Removing repeats throughout a value

  /**
   * The value with every array's repeats dropped, at every depth, and
   * everything else kept as it is.
   */
  function Normalise(j: Json): (r: Json)
    ensures r.JArray? == j.JArray? && r.JObject? == j.JObject?
    ensures !IsObjectLike(j) ==> r == j
    ensures j.JArray? ==> |r.items| <= |j.items|
    ensures j.JObject? ==> |r.entries| == |j.entries|
    ensures Truthy(r) == Truthy(j)
    decreases j
  {
    match j
    case JArray(items) =>
      var m := seq(|items|, i requires 0 <= i < |items| => Normalise(items[i]));
      DedupShorter(m);
      JArray(Dedup(m))
    case JObject(es) => JObject(seq(|es|, i requires 0 <= i < |es| => (es[i].0, Normalise(es[i].1))))
    case _ => j
  }

  lemma DedupShorter(s: seq<Json>)
    ensures |Dedup(s)| <= |s|
  {
    DedupSubsequence(s);
    SubsequenceShorter(Dedup(s), s);
  }

  /** A value as `JSON.parse` reads it normalises to a value without repeats. */
  lemma {:induction false} NormaliseNormal(j: Json)
    requires Parsed(j)
    ensures Normal(Normalise(j))
    decreases j
  {
    match j
    case JArray(items) =>
      var m := seq(|items|, i requires 0 <= i < |items| => Normalise(items[i]));
      forall i | 0 <= i < |items|
        ensures Normal(m[i])
      {
        NormaliseNormal(items[i]);
      }
      DedupDistinct(m);
      DedupSubsequence(m);
      SubsequenceMembers(Dedup(m), m);
      assert Normalise(j) == JArray(Dedup(m));
    case JObject(es) =>
      var es' := seq(|es|, i requires 0 <= i < |es| => (es[i].0, Normalise(es[i].1)));
      forall i | 0 <= i < |es|
        ensures Normal(es'[i].1)
      {
        assert es[i] in es;
        NormaliseNormal(es[i].1);
      }
      assert Normalise(j) == JObject(es');
    case _ =>
  }

  /** A value that has no repeats already is its own normal form. */
  lemma {:induction false} NormaliseOfNormal(j: Json)
    requires Normal(j)
    ensures Normalise(j) == j
    decreases j
  {
    match j
    case JArray(items) =>
      var m := seq(|items|, i requires 0 <= i < |items| => Normalise(items[i]));
      forall i | 0 <= i < |items|
        ensures m[i] == items[i]
      {
        NormaliseOfNormal(items[i]);
      }
      assert m == items;
      DedupOfDistinct(items);
    case JObject(es) =>
      var es' := seq(|es|, i requires 0 <= i < |es| => (es[i].0, Normalise(es[i].1)));
      forall i | 0 <= i < |es|
        ensures es'[i] == es[i]
      {
        assert es[i] in es;
        NormaliseOfNormal(es[i].1);
      }
      assert es' == es;
    case _ =>
  }
}
