/** The query pipeline the controllers build with Mongoose: `find(query)`
    over a collection, `.sort(...)` on one or two keys, `.skip((page - 1) * limit)`,
    `.limit(limit)`, and `Math.ceil(total / limit)` pages. A collection is a map
    from ids; its natural order is ascending ids below the store's id bound. */
module Listing {
  import opened Common
  import opened Seqs

  predicate Increasing(s: seq<nat>) {
    forall i, j :: 0 <= i < j < |s| ==> s[i] < s[j]
  }

  /** The ids of `m` below `bound`, in ascending order. */
  function KeysBelow<T>(m: map<nat, T>, bound: nat): (r: seq<nat>)
    ensures forall k :: k in r <==> k in m && k < bound
    ensures Increasing(r) && NoDup(r)
  {
    if bound == 0 then []
    else
      var prefix := KeysBelow(m, bound - 1);
      var r := prefix + (if bound - 1 in m then [bound - 1] else []);
      assert forall i :: 0 <= i < |prefix| ==> prefix[i] in prefix;
      assert Increasing(r) by {
        forall i, j | 0 <= i < j < |r| ensures r[i] < r[j] {
          assert r[i] == prefix[i];
          if j >= |prefix| { assert r[j] == bound - 1; } else { assert r[j] == prefix[j]; }
        }
      }
      r
  }

  /** `find(query)`: the ids of `ids` whose document satisfies `keep`, in the same order. */
  function Select<T>(ids: seq<nat>, m: map<nat, T>, keep: T -> bool): (r: seq<nat>)
    ensures forall k :: k in r <==> k in ids && k in m && keep(m[k])
    ensures NoDup(ids) ==> NoDup(r)
  {
    if ids == [] then []
    else
      var rest := Select(ids[1..], m, keep);
      assert ids == [ids[0]] + ids[1..];
      if ids[0] in m && keep(m[ids[0]]) then
        assert NoDup(ids) ==> ids[0] !in ids[1..] && NoDup(ids[1..]);
        var r := [ids[0]] + rest;
        assert NoDup(ids) ==> NoDup(r) by {
          if NoDup(ids) {
            forall i, j | 0 <= i < j < |r| ensures r[i] != r[j] {
              assert r[j] == rest[j - 1];
              if i > 0 { assert r[i] == rest[i - 1]; }
            }
          }
        }
        r
      else
        assert NoDup(ids) ==> NoDup(ids[1..]);
        rest
  }

  /** A sort key `{ a: -1, b: -1 }` as a pair; ascending keys are negated. */
  type Rank = (int, int)

  predicate Outranks(a: Rank, b: Rank) {
    a.0 > b.0 || (a.0 == b.0 && a.1 >= b.1)
  }

  predicate SortedDesc(s: seq<nat>, key: nat -> Rank) {
    forall i, j :: 0 <= i < j < |s| ==> Outranks(key(s[i]), key(s[j]))
  }

  function Insert(x: nat, s: seq<nat>, key: nat -> Rank): (r: seq<nat>)
    requires SortedDesc(s, key)
    ensures SortedDesc(r, key)
    ensures multiset(r) == multiset(s) + multiset{x}
  {
    if s == [] || Outranks(key(x), key(s[0])) then
      assert SortedDesc([x] + s, key) by {
        forall i, j | 0 <= i < j < |[x] + s|
          ensures Outranks(key(([x] + s)[i]), key(([x] + s)[j]))
        {
          if i > 0 { assert ([x] + s)[i] == s[i - 1]; }
          assert ([x] + s)[j] == s[j - 1];
        }
      }
      [x] + s
    else
      var rest := Insert(x, s[1..], key);
      assert s == [s[0]] + s[1..];
      var r := [s[0]] + rest;
      assert forall y :: y in rest ==> Outranks(key(s[0]), key(y)) by {
        forall y | y in rest ensures Outranks(key(s[0]), key(y)) {
          assert y in multiset(rest);
          if y != x {
            assert y in multiset(s[1..]);
            var j :| 0 <= j < |s[1..]| && s[1..][j] == y;
            assert s[j + 1] == y;
          }
        }
      }
      assert SortedDesc(r, key) by {
        forall i, j | 0 <= i < j < |r| ensures Outranks(key(r[i]), key(r[j])) {
          assert r[j] == rest[j - 1];
          assert r[j] in rest;
          if i > 0 { assert r[i] == rest[i - 1]; }
        }
      }
      r
  }

  /** `.sort(key)`: a descending insertion sort. */
  function SortDesc(s: seq<nat>, key: nat -> Rank): (r: seq<nat>)
    ensures SortedDesc(r, key)
    ensures multiset(r) == multiset(s)
  {
    if s == [] then []
    else
      assert s == [s[0]] + s[1..];
      Insert(s[0], SortDesc(s[1..], key), key)
  }

  /** A duplicate-free sequence holds each value once in its multiset. */
  lemma {:induction false} NoDupMultiplicity(s: seq<nat>, x: nat)
    requires NoDup(s)
    ensures multiset(s)[x] <= 1
  {
    if s != [] {
      assert s == [s[0]] + s[1..];
      assert NoDup(s[1..]);
      NoDupMultiplicity(s[1..], x);
      if s[0] == x {
        assert x !in s[1..];
      }
    }
  }

  /** A rearrangement of a duplicate-free sequence is duplicate-free. */
  lemma NoDupPermutation(s: seq<nat>, r: seq<nat>)
    requires NoDup(s) && multiset(r) == multiset(s)
    ensures NoDup(r)
  {
    forall i, j | 0 <= i < j < |r| ensures r[i] != r[j] {
      if r[i] == r[j] {
        var x := r[i];
        assert r == r[..j] + [r[j]] + r[j + 1..];
        assert x in r[..j];
        assert multiset(r)[x] == multiset(r[..j])[x] + 1 + multiset(r[j + 1..])[x];
        NoDupMultiplicity(s, x);
        assert false;
      }
    }
  }

  /** `find(query).sort(key)` over a collection: the matching documents,
      each once, ordered by `key` from the largest. */
  function Query<T>(m: map<nat, T>, bound: nat, keep: T -> bool, key: nat -> Rank): (r: seq<nat>)
    ensures forall k :: k in r <==> k in m && k < bound && keep(m[k])
    ensures NoDup(r)
    ensures SortedDesc(r, key)
  {
    var selected := Select(KeysBelow(m, bound), m, keep);
    var r := SortDesc(selected, key);
    NoDupPermutation(selected, r);
    assert forall k :: k in r <==> k in multiset(selected);
    r
  }

  function Min(a: int, b: int): int { if a <= b then a else b }

  /** `.skip(skip).limit(limit)`; MongoDB reads a limit of 0 as no limit. */
  function Window(s: seq<nat>, skip: nat, limit: nat): (r: seq<nat>)
    ensures |r| == if skip >= |s| then 0 else if limit == 0 then |s| - skip else Min(limit, |s| - skip)
    ensures forall i :: 0 <= i < |r| ==> skip + i < |s| && r[i] == s[skip + i]
    ensures forall x :: x in r ==> x in s
    ensures NoDup(s) ==> NoDup(r)
  {
    if skip >= |s| then []
    else
      var n := if limit == 0 then |s| - skip else Min(limit, |s| - skip);
      var r := s[skip..skip + n];
      assert NoDup(s) ==> NoDup(r) by {
        if NoDup(s) {
          forall i, j | 0 <= i < j < |r| ensures r[i] != r[j] {
            assert r[i] == s[skip + i] && r[j] == s[skip + j];
          }
        }
      }
      r
  }

  /** `(page - 1) * limit`, the number of items before a page. */
  function Skip(page: nat, limit: nat): nat
    requires page >= 1
  {
    (page - 1) * limit
  }

  /** `.skip((page - 1) * limit).limit(limit)`: a run of consecutive items,
      at most `limit` of them, or the whole listing when `limit` is 0. */
  function Paginate(s: seq<nat>, page: nat, limit: nat): (r: seq<nat>)
    requires page >= 1
    ensures limit >= 1 ==> |r| <= limit
    ensures limit == 0 ==> r == s
    ensures forall i :: 0 <= i < |r| ==> Skip(page, limit) + i < |s| && r[i] == s[Skip(page, limit) + i]
    ensures forall x :: x in r ==> x in s
    ensures NoDup(s) ==> NoDup(r)
  {
    Window(s, Skip(page, limit), limit)
  }

  /** `Math.ceil(total / limit)`; with a limit of 0 the quotient is
      `Infinity` or `NaN`, which JSON writes as `null`. */
  function TotalPages(total: nat, limit: nat): (n: Option<nat>)
    ensures n.None? <==> limit == 0
    ensures n.Some? ==> n.value * limit >= total && (n.value == 0 || (n.value - 1) * limit < total)
  {
    if limit == 0 then None else Some((total + limit - 1) / limit)
  }

  lemma {:induction false} MulMonotone(a: nat, b: nat, c: nat)
    requires a <= b
    ensures a * c <= b * c
  {
    if a < b {
      MulMonotone(a, b - 1, c);
      assert b * c == (b - 1) * c + c;
    }
  }

  /** The page holding index `k` is within `totalPages`. */
  lemma PageWithinTotal(total: nat, limit: nat, k: nat)
    requires k < total
    ensures TotalPages(total, limit).Some? ==> k / limit + 1 <= TotalPages(total, limit).value
  {
    if limit >= 1 {
      var p := k / limit;
      var n := TotalPages(total, limit).value;
      assert p * limit <= k;
      if n < p + 1 {
        MulMonotone(n, p, limit);
        assert false;
      }
    }
  }

  /** Every item of a listing appears on exactly the page its index
      determines (the first page when there is no limit), and that page is
      within `totalPages`. */
  lemma EveryItemOnAPage(s: seq<nat>, limit: nat, k: nat) returns (page: nat, slot: nat)
    requires k < |s|
    ensures page == (if limit == 0 then 1 else k / limit + 1)
    ensures slot == (if limit == 0 then k else k % limit)
    ensures page >= 1 && (TotalPages(|s|, limit).Some? ==> page <= TotalPages(|s|, limit).value)
    ensures slot < |Paginate(s, page, limit)| && Paginate(s, page, limit)[slot] == s[k]
  {
    PageWithinTotal(|s|, limit, k);
    if limit == 0 {
      page, slot := 1, k;
    } else {
      page, slot := k / limit + 1, k % limit;
      var skip := Skip(page, limit);
      assert skip + slot == k;
      assert Window(s, skip, limit) == Paginate(s, page, limit);
    }
  }
}
