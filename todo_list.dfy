/** The records of the to-do page and the two pure list transforms its request
    completions apply: appending the created record and filtering out a deleted id. */
module TodoList {

  /** A to-do item as the server returns it. */
  datatype Todo = Todo(id: int, title: string, description: string)

  /** The `{title, description}` pair: the draft being typed and the body of a create request. */
  datatype TodoCreate = TodoCreate(title: string, description: string)

  /** The ids that occur in a list. */
  function Ids(s: seq<Todo>): (r: set<int>)
  {
    set t | t in s :: t.id
  }

  /** No two positions of the list hold the same id. */
  predicate UniqueIds(s: seq<Todo>)
  {
    forall i, j :: 0 <= i < j < |s| ==> s[i].id != s[j].id
  }

  /** `r` is `s` with some elements left out and the rest in their original order. */
  predicate IsSubsequence<T(==)>(r: seq<T>, s: seq<T>)
    decreases |s|
  {
    r == [] ||
    (s != [] && ((r[0] == s[0] && IsSubsequence(r[1..], s[1..])) || IsSubsequence(r, s[1..])))
  }

  /** `[...prev, item]`: the old list is kept as a prefix and `item` becomes the last element. */
  function Appended(s: seq<Todo>, item: Todo): (r: seq<Todo>)
    ensures |r| == |s| + 1
    ensures r[..|s|] == s && r[|s|] == item
  {
    s + [item]
  }

  /** `prev.filter(t => t.id !== id)`: the items whose id is not `id`. */
  function WithoutId(s: seq<Todo>, id: int): (r: seq<Todo>)
    ensures |r| <= |s|
    ensures forall t :: t in r <==> t in s && t.id != id
  {
    if s == [] then []
    else if s[0].id != id then [s[0]] + WithoutId(s[1..], id)
    else WithoutId(s[1..], id)
  }

  /** No id of the filtered list is `id`, and every other id of the list survives. */
  lemma IdsWithoutId(s: seq<Todo>, id: int)
    ensures Ids(WithoutId(s, id)) == Ids(s) - {id}
  {
  }

  /** The filter keeps the surviving items in their original relative order. */
  lemma {:induction false} WithoutIdKeepsOrder(s: seq<Todo>, id: int)
    ensures IsSubsequence(WithoutId(s, id), s)
    decreases |s|
  {
    if s != [] {
      WithoutIdKeepsOrder(s[1..], id);
      var r := WithoutId(s, id);
      if s[0].id != id {
        assert r[0] == s[0] && r[1..] == WithoutId(s[1..], id);
      }
    }
  }

  /** Counting multiplicities: every copy of an item with another id is kept,
      every copy of an item with id `id` is dropped, nothing is added. */
  lemma {:induction false} WithoutIdCounts(s: seq<Todo>, id: int, t: Todo)
    ensures multiset(WithoutId(s, id))[t] == if t.id == id then 0 else multiset(s)[t]
    decreases |s|
  {
    if s != [] {
      WithoutIdCounts(s[1..], id, t);
      assert s == [s[0]] + s[1..];
    }
  }

  /** Deleting an id changes the list exactly when the id occurs in it. */
  lemma {:induction false} WithoutIdUnchangedIff(s: seq<Todo>, id: int)
    ensures WithoutId(s, id) == s <==> id !in Ids(s)
    decreases |s|
  {
    if s != [] {
      WithoutIdUnchangedIff(s[1..], id);
      assert s == [s[0]] + s[1..];
      if s[0].id == id {
        assert s[0] in s;
        assert |WithoutId(s, id)| < |s|;
      } else {
        assert Ids(s) == {s[0].id} + Ids(s[1..]) by {
          forall x | x in Ids(s) ensures x in {s[0].id} + Ids(s[1..]) {
            var t :| t in s && t.id == x;
            if t != s[0] { assert t in s[1..]; }
          }
        }
      }
    }
  }

  /** Applying the same delete completion twice equals applying it once. */
  lemma WithoutIdIdempotent(s: seq<Todo>, id: int)
    ensures WithoutId(WithoutId(s, id), id) == WithoutId(s, id)
  {
  }

  /** Filtering distributes over concatenation. */
  lemma {:induction false} WithoutIdConcat(a: seq<Todo>, b: seq<Todo>, id: int)
    ensures WithoutId(a + b, id) == WithoutId(a, id) + WithoutId(b, id)
    decreases |a|
  {
    if a != [] {
      assert (a + b)[1..] == a[1..] + b;
      WithoutIdConcat(a[1..], b, id);
    } else {
      assert a + b == b;
    }
  }

  /** Two delete completions give the same list in either order. */
  lemma {:induction false} WithoutIdCommutes(s: seq<Todo>, x: int, y: int)
    ensures WithoutId(WithoutId(s, x), y) == WithoutId(WithoutId(s, y), x)
    decreases |s|
  {
    if s != [] {
      WithoutIdCommutes(s[1..], x, y);
    }
  }

  /** A create completion and a delete completion for another id give the same
      list in either order; a delete for the created id removes it again. */
  lemma CreateDeleteCommute(s: seq<Todo>, item: Todo, id: int)
    ensures WithoutId(Appended(s, item), id) ==
            if item.id == id then WithoutId(s, id) else Appended(WithoutId(s, id), item)
  {
    WithoutIdConcat(s, [item], id);
  }

  /** Appending keeps the ids distinct exactly when the new id is fresh. */
  lemma AppendedUniqueIff(s: seq<Todo>, item: Todo)
    ensures UniqueIds(Appended(s, item)) <==> UniqueIds(s) && item.id !in Ids(s)
  {
  }

  /** A list headed by `t` has distinct ids exactly when its tail does and `t`'s id is not in the tail. */
  lemma UniqueCons(t: Todo, rest: seq<Todo>)
    ensures UniqueIds([t] + rest) <==> UniqueIds(rest) && t.id !in Ids(rest)
  {
    var s := [t] + rest;
    assert forall k :: 0 <= k < |rest| ==> s[k + 1] == rest[k];
    if UniqueIds(rest) && t.id !in Ids(rest) {
      forall i, j | 0 <= i < j < |s| ensures s[i].id != s[j].id {
        if i == 0 {
          assert rest[j - 1] in rest;
        }
      }
    }
    if UniqueIds(s) {
      forall x | x in Ids(rest) ensures x != t.id {
        var u :| u in rest && u.id == x;
        var k :| 0 <= k < |rest| && rest[k] == u;
        assert s[0] == t && s[k + 1].id == x;
      }
    }
  }

  /** Filtering never introduces a repeated id. */
  lemma {:induction false} WithoutIdKeepsUnique(s: seq<Todo>, id: int)
    requires UniqueIds(s)
    ensures UniqueIds(WithoutId(s, id))
    decreases |s|
  {
    if s != [] {
      assert s == [s[0]] + s[1..];
      UniqueCons(s[0], s[1..]);
      WithoutIdKeepsUnique(s[1..], id);
      if s[0].id != id {
        IdsWithoutId(s[1..], id);
        UniqueCons(s[0], WithoutId(s[1..], id));
      }
    }
  }
}
