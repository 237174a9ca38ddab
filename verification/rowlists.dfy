/**
  The row collections of the sheet and their structural edits: removing,
  inserting and moving an element (drag-reorder), patching one row's fields,
  and filtering a catalog. A grid row is a field-name-to-text record.
 */
module RowLists {
  import opened Options

  /** A grid row, or a catalog record: field name to text. */
  type Row = map<string, string>

  /** `{...row, ...patch}`: the fields of `patch` override those of `row`. */
  function Merge(row: Row, patch: Row): (r: Row)
    ensures r.Keys == row.Keys + patch.Keys
    ensures forall k | k in patch :: r[k] == patch[k]
    ensures forall k | k in row && k !in patch :: r[k] == row[k]
  {
    row + patch
  }

  /** `splice(i, 1)`: drops the element at `i`, keeping the others in order. */
  function RemoveAt<T>(s: seq<T>, i: nat): (r: seq<T>)
    requires i < |s|
    ensures |r| == |s| - 1
    ensures forall k | 0 <= k < i :: r[k] == s[k]
    ensures forall k | i <= k < |r| :: r[k] == s[k + 1]
  {
    s[..i] + s[i + 1..]
  }

  /** `splice(i, 0, x)`: puts `x` at `i`, shifting the later elements up. */
  function InsertAt<T>(s: seq<T>, i: nat, x: T): (r: seq<T>)
    requires i <= |s|
    ensures |r| == |s| + 1
    ensures r[i] == x
    ensures forall k | 0 <= k < i :: r[k] == s[k]
    ensures forall k | i < k < |r| :: r[k] == s[k - 1]
  {
    s[..i] + [x] + s[i..]
  }

  /** Removing what was just inserted gives the list back. */
  lemma RemoveInsert<T>(s: seq<T>, i: nat, x: T)
    requires i <= |s|
    ensures RemoveAt(InsertAt(s, i, x), i) == s
  {
  }

  /** Re-inserting a removed element where it was gives the list back. */
  lemma InsertRemove<T>(s: seq<T>, i: nat)
    requires i < |s|
    ensures InsertAt(RemoveAt(s, i), i, s[i]) == s
  {
  }

  /**
    `move`: takes the element at `from` out, then inserts it at `to`, where
    `to` counts positions in the shortened list. The moved element lands at
    `to` and the other elements keep their relative order.
   */
  function Move<T>(s: seq<T>, from: nat, to: nat): (r: seq<T>)
    requires from < |s| && to < |s|
    ensures |r| == |s|
    ensures r[to] == s[from]
    ensures RemoveAt(r, to) == RemoveAt(s, from)
    ensures multiset(r) == multiset(s)
  {
    var rest := RemoveAt(s, from);
    RemoveInsert(rest, to, s[from]);
    assert s == s[..from] + [s[from]] + s[from + 1..];
    assert multiset(s) == multiset(rest) + multiset{s[from]};
    InsertAt(rest, to, s[from])
  }

  /** The three facts above pin `Move` down: any list satisfying them is the move. */
  lemma MoveUnique<T>(s: seq<T>, from: nat, to: nat, r: seq<T>)
    requires from < |s| && to < |s|
    requires |r| == |s| && r[to] == s[from] && RemoveAt(r, to) == RemoveAt(s, from)
    ensures r == Move(s, from, to)
  {
    InsertRemove(r, to);
  }

  /** Moving back undoes a move, for every pair of valid positions. */
  lemma MoveInverse<T>(s: seq<T>, i: nat, j: nat)
    requires i < |s| && j < |s|
    ensures Move(Move(s, i, j), j, i) == s
  {
    var m := Move(s, i, j);
    InsertRemove(s, i);
    assert Move(m, j, i) == InsertAt(RemoveAt(s, i), i, s[i]);
  }

  /** A move onto the same position changes nothing. */
  lemma MoveSamePlace<T>(s: seq<T>, i: nat)
    requires i < |s|
    ensures Move(s, i, i) == s
  {
    InsertRemove(s, i);
  }

  /**
    A concrete move that is not between neighbours: the element at 0 of
    [a, b, c] goes to 2, and moving it back restores the list.
   */
  lemma MoveNonAdjacentExample()
    ensures Move([1, 2, 3], 0, 2) == [2, 3, 1]
    ensures Move([2, 3, 1], 2, 0) == [1, 2, 3]
  {
    assert RemoveAt([1, 2, 3], 0) == [2, 3];
    assert RemoveAt([2, 3, 1], 2) == [2, 3];
  }

  /** `setRowAt`: merges `patch` into row `idx`, leaving every other row as it was. */
  function SetRowAt(rows: seq<Row>, idx: nat, patch: Row): (r: seq<Row>)
    requires idx < |rows|
    ensures |r| == |rows|
    ensures forall k | 0 <= k < |rows| && k != idx :: r[k] == rows[k]
    ensures r[idx].Keys == rows[idx].Keys + patch.Keys
    ensures forall f | f in patch :: r[idx][f] == patch[f]
    ensures forall f | f in rows[idx] && f !in patch :: r[idx][f] == rows[idx][f]
  {
    rows[idx := Merge(rows[idx], patch)]
  }

  /** An empty patch changes nothing. */
  lemma SetRowAtEmptyPatch(rows: seq<Row>, idx: nat)
    requires idx < |rows|
    ensures SetRowAt(rows, idx, map[]) == rows
  {
    assert Merge(rows[idx], map[]) == rows[idx];
  }

  // ---- Filtering

  /** `items.filter(p)`: the elements satisfying `p`, in their original order. */
  function Filter<T(!new)>(s: seq<T>, p: T -> bool): (r: seq<T>)
    ensures |r| <= |s|
    ensures forall x :: x in r <==> x in s && p(x)
  {
    if |s| == 0 then []
    else
      var rest := Filter(s[1..], p);
      assert s == [s[0]] + s[1..];
      if p(s[0]) then [s[0]] + rest else rest
  }

  /** Filtering distributes over concatenation, so it keeps the original order. */
  lemma {:induction false} FilterAppend<T(!new)>(a: seq<T>, b: seq<T>, p: T -> bool)
    ensures Filter(a + b, p) == Filter(a, p) + Filter(b, p)
    decreases |a|
  {
    if |a| == 0 {
      assert a + b == b;
    } else {
      assert (a + b)[0] == a[0];
      assert (a + b)[1..] == a[1..] + b;
      FilterAppend(a[1..], b, p);
    }
  }

  /** Two tests that agree on every element filter alike. */
  lemma {:induction false} FilterSameTest<T(!new)>(s: seq<T>, p: T -> bool, q: T -> bool)
    requires forall x | x in s :: p(x) == q(x)
    ensures Filter(s, p) == Filter(s, q)
    decreases |s|
  {
    if |s| > 0 {
      FilterSameTest(s[1..], p, q);
    }
  }

  /** A test every element passes keeps the whole list. */
  lemma {:induction false} FilterAll<T(!new)>(s: seq<T>, p: T -> bool)
    requires forall x | x in s :: p(x)
    ensures Filter(s, p) == s
    decreases |s|
  {
    if |s| > 0 {
      FilterAll(s[1..], p);
      assert s == [s[0]] + s[1..];
    }
  }

  /** `xs.map(f)`. */
  function MapSeq<T, U>(s: seq<T>, f: T -> U): (r: seq<U>)
    ensures |r| == |s|
    ensures forall i | 0 <= i < |s| :: r[i] == f(s[i])
  {
    if |s| == 0 then [] else [f(s[0])] + MapSeq(s[1..], f)
  }

  /** What `map` produces is exactly the images of the elements. */
  lemma MapSeqIn<T, U>(s: seq<T>, f: T -> U, y: U)
    ensures y in MapSeq(s, f) <==> exists x | x in s :: f(x) == y
  {
    if y in MapSeq(s, f) {
      var i :| 0 <= i < |s| && MapSeq(s, f)[i] == y;
      assert s[i] in s;
    }
    if exists x | x in s :: f(x) == y {
      var x :| x in s && f(x) == y;
      var i :| 0 <= i < |s| && s[i] == x;
      assert MapSeq(s, f)[i] == y;
    }
  }

  // ---- Keyed lookup

  /**
    The element an index built by `for (x of s) index[key(x)] = x` holds
    for `n`: the last element with that key, none when `n` is blank.
   */
  function LastWith<T>(s: seq<T>, key: T -> string, n: string): (r: Option<T>)
    ensures r.Some? ==> n != "" && r.value in s && key(r.value) == n
    ensures r.None? ==> n == "" || forall x | x in s :: key(x) != n
  {
    if |s| == 0 then None
    else
      var last := s[|s| - 1];
      var init := s[..|s| - 1];
      assert s == init + [last];
      if n != "" && key(last) == n then Some(last) else LastWith(init, key, n)
  }

  /** The element found for a key is the last one carrying it. */
  lemma {:induction false} LastWithWins<T>(s: seq<T>, key: T -> string, n: string, i: nat)
    requires n != "" && i < |s| && key(s[i]) == n
    requires forall j | i < j < |s| :: key(s[j]) != n
    ensures LastWith(s, key, n) == Some(s[i])
    decreases |s|
  {
    var k := |s| - 1;
    if i < k {
      var init := s[..k];
      assert key(s[k]) != n;
      assert LastWith(s, key, n) == LastWith(init, key, n);
      forall j | i < j < |init|
        ensures key(init[j]) != n
      {
        assert init[j] == s[j];
      }
      LastWithWins(init, key, n, i);
      assert init[i] == s[i];
    }
  }

  /** `s.find(x => key(x) === n) ?? null`: the first element with that key. */
  function FirstWith<T>(s: seq<T>, key: T -> string, n: string): (r: Option<T>)
    ensures r.Some? ==> r.value in s && key(r.value) == n
    ensures r.None? ==> forall x | x in s :: key(x) != n
  {
    if |s| == 0 then None
    else if key(s[0]) == n then Some(s[0])
    else FirstWith(s[1..], key, n)
  }

  /** Searching the elements that pass `p` finds the first element that passes `p` and has the key. */
  lemma {:induction false} FirstWithFiltered<T(!new)>(s: seq<T>, p: T -> bool, key: T -> string, n: string, i: nat)
    requires i < |s| && p(s[i]) && key(s[i]) == n
    requires forall j | 0 <= j < i :: !p(s[j]) || key(s[j]) != n
    ensures FirstWith(Filter(s, p), key, n) == Some(s[i])
    decreases i
  {
    var rest := Filter(s[1..], p);
    if i == 0 {
      assert Filter(s, p) == [s[0]] + rest;
    } else {
      assert s[1..][i - 1] == s[i];
      forall j | 0 <= j < i - 1
        ensures !p(s[1..][j]) || key(s[1..][j]) != n
      {
        assert s[1..][j] == s[j + 1];
      }
      FirstWithFiltered(s[1..], p, key, n, i - 1);
      if p(s[0]) {
        assert Filter(s, p) == [s[0]] + rest;
        assert key(s[0]) != n;
      } else {
        assert Filter(s, p) == rest;
      }
    }
  }

  // ---- Collecting looked-up elements

  /**
    `keys.map(look).filter(Boolean).map(f)`: the image of every key the
    lookup knows, in key order; unknown keys are skipped.
   */
  function Collect<T, U>(keys: seq<string>, look: string -> Option<T>, f: T -> U): (r: seq<U>)
    ensures |r| <= |keys|
    ensures forall u | u in r :: exists k | k in keys :: look(k).Some? && u == f(look(k).value)
  {
    if |keys| == 0 then []
    else
      var rest := Collect(keys[1..], look, f);
      assert forall k | k in keys[1..] :: k in keys;
      match look(keys[0])
      case Some(t) => [f(t)] + rest
      case None => rest
  }

  /** When the lookup knows every key, the i-th result is the image of the i-th key. */
  lemma {:induction false} CollectAllKnown<T, U>(keys: seq<string>, look: string -> Option<T>, f: T -> U)
    requires forall i | 0 <= i < |keys| :: look(keys[i]).Some?
    ensures |Collect(keys, look, f)| == |keys|
    ensures forall i | 0 <= i < |keys| :: Collect(keys, look, f)[i] == f(look(keys[i]).value)
    decreases |keys|
  {
    if |keys| > 0 {
      var tail := keys[1..];
      forall i | 0 <= i < |tail|
        ensures look(tail[i]).Some?
      {
        assert tail[i] == keys[i + 1];
      }
      CollectAllKnown(tail, look, f);
      var rest := Collect(tail, look, f);
      var r := Collect(keys, look, f);
      assert r == [f(look(keys[0]).value)] + rest;
      forall i | 0 <= i < |keys|
        ensures r[i] == f(look(keys[i]).value)
      {
        if i > 0 {
          assert r[i] == rest[i - 1];
          assert tail[i - 1] == keys[i];
        }
      }
    }
  }

  /** Collecting over two key lists one after the other is collecting each in turn. */
  lemma {:induction false} CollectAppend<T, U>(a: seq<string>, b: seq<string>, look: string -> Option<T>, f: T -> U)
    ensures Collect(a + b, look, f) == Collect(a, look, f) + Collect(b, look, f)
    decreases |a|
  {
    if |a| == 0 {
      assert a + b == b;
    } else {
      assert (a + b)[0] == a[0];
      assert (a + b)[1..] == a[1..] + b;
      CollectAppend(a[1..], b, look, f);
    }
  }

  /** One key gives its image when the lookup knows it, and nothing otherwise. */
  lemma CollectOne<T, U>(k: string, look: string -> Option<T>, f: T -> U)
    ensures Collect([k], look, f) == (if look(k).Some? then [f(look(k).value)] else [])
  {
    assert [k][1..] == [];
  }

  /** Keys the lookup does not know contribute nothing. */
  lemma {:induction false} CollectNoneKnown<T, U>(keys: seq<string>, look: string -> Option<T>, f: T -> U)
    requires forall i | 0 <= i < |keys| :: look(keys[i]).None?
    ensures Collect(keys, look, f) == []
    decreases |keys|
  {
    if |keys| > 0 {
      var tail := keys[1..];
      forall i | 0 <= i < |tail|
        ensures look(tail[i]).None?
      {
        assert tail[i] == keys[i + 1];
      }
      CollectNoneKnown(tail, look, f);
    }
  }
}
