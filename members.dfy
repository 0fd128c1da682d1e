/** The two updates the handlers apply to a class's member list: the
    "push unless already included" of `aluno_add` and the `filter` of
    `aluno_remover`. */
module Members {

  /** A member list holds every id at most once. */
  predicate NoDuplicates(s: seq<string>)
  {
    forall i, j :: 0 <= i < j < |s| ==> s[i] != s[j]
  }

  lemma NoDuplicatesTail(s: seq<string>)
    requires NoDuplicates(s) && |s| > 0
    ensures NoDuplicates(s[1..]) && s[0] !in s[1..]
  {
    forall i, j | 0 <= i < j < |s[1..]| ensures s[1..][i] != s[1..][j] {
      assert s[1..][i] == s[i + 1] && s[1..][j] == s[j + 1];
    }
    forall k | 0 <= k < |s[1..]| ensures s[1..][k] != s[0] {
      assert s[1..][k] == s[k + 1];
    }
  }

  lemma NoDuplicatesCons(x: string, s: seq<string>)
    requires NoDuplicates(s) && x !in s
    ensures NoDuplicates([x] + s)
  {
    var r := [x] + s;
    forall i, j | 0 <= i < j < |r| ensures r[i] != r[j] {
      assert r[j] == s[j - 1];
      if i > 0 {
        assert r[i] == s[i - 1];
      }
    }
  }

  lemma {:induction false} NoDuplicatesCount(s: seq<string>, x: string)
    requires NoDuplicates(s)
    ensures multiset(s)[x] == if x in s then 1 else 0
  {
    if s != [] {
      assert s == [s[0]] + s[1..];
      NoDuplicatesTail(s);
      NoDuplicatesCount(s[1..], x);
    }
  }

  /** `if (!alunos.includes(id)) alunos.push(id)`: the list keeps its order,
      gains `id` at the end when it lacked it, and otherwise stays as it was. */
  function AddOnce(ids: seq<string>, id: string): (r: seq<string>)
    ensures |ids| <= |r| <= |ids| + 1 && r[..|ids|] == ids
    ensures multiset(r)[id] == if id in ids then multiset(ids)[id] else 1
    ensures forall y :: y != id ==> multiset(r)[y] == multiset(ids)[y]
    ensures NoDuplicates(ids) ==> NoDuplicates(r) && multiset(r)[id] == 1
  {
    var r := if id in ids then ids else ids + [id];
    assert r[..|ids|] == ids;
    assert NoDuplicates(ids) ==> multiset(ids)[id] == (if id in ids then 1 else 0) by {
      if NoDuplicates(ids) {
        NoDuplicatesCount(ids, id);
      }
    }
    r
  }

  /** `alunos.filter(x => x !== id)`: every occurrence of `id` goes, every
      other entry stays, in its original order. */
  function Without(ids: seq<string>, id: string): (r: seq<string>)
    ensures multiset(r) == multiset(ids)[id := 0]
    ensures id !in ids ==> r == ids
    ensures NoDuplicates(ids) ==> NoDuplicates(r)
    decreases |ids|
  {
    if |ids| == 0 then []
    else
      var rest := Without(ids[1..], id);
      assert ids == [ids[0]] + ids[1..];
      var r := if ids[0] == id then rest else [ids[0]] + rest;
      assert NoDuplicates(ids) ==> NoDuplicates(r) by {
        if NoDuplicates(ids) {
          NoDuplicatesTail(ids);
          if ids[0] != id {
            assert multiset(rest)[ids[0]] == 0;
            NoDuplicatesCons(ids[0], rest);
          }
        }
      }
      r
  }

  /** Membership after a removal: exactly the other ids that were there. */
  lemma WithoutMembership(ids: seq<string>, id: string, y: string)
    ensures y in Without(ids, id) <==> y in ids && y != id
  {
    assert y in Without(ids, id) <==> multiset(Without(ids, id))[y] > 0;
    assert y in ids <==> multiset(ids)[y] > 0;
  }

  /** Filtering distributes over concatenation, so the relative order of the
      ids that survive is the order they had before. */
  lemma {:induction false} WithoutConcat(a: seq<string>, b: seq<string>, id: string)
    ensures Without(a + b, id) == Without(a, id) + Without(b, id)
    decreases |a|
  {
    if a == [] {
      assert a + b == b;
    } else {
      assert (a + b)[1..] == a[1..] + b;
      assert (a + b)[0] == a[0];
      WithoutConcat(a[1..], b, id);
    }
  }

  /** Adding an id twice is the same as adding it once. */
  lemma AddOnceIdempotent(ids: seq<string>, id: string)
    ensures AddOnce(AddOnce(ids, id), id) == AddOnce(ids, id)
  {
  }

  /** Adding a new id and then removing it gives back the list before. */
  lemma {:induction false} AddThenRemove(ids: seq<string>, id: string)
    requires id !in ids
    ensures Without(AddOnce(ids, id), id) == ids
  {
    WithoutConcat(ids, [id], id);
    assert Without([id], id) == [];
  }
}
