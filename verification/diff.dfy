/** The create/update/delete split of a list of ids sent by a client against
    the ids stored for it (pkg/utils/collection/diff.go). A negative request
    id stands for a row still to be created; a stored id is updated when the
    request names it and deleted when it does not. */
module Collection {

  /** The negative ids of a request, in order, repeats kept. */
  function Created(requestIds: seq<int>): (r: seq<int>)
    ensures |r| <= |requestIds|
    decreases |requestIds|
  {
    if |requestIds| == 0 then []
    else
      var init, last := requestIds[..|requestIds| - 1], requestIds[|requestIds| - 1];
      assert requestIds == init + [last];
      Created(init) + (if last < 0 then [last] else [])
  }

  /** The stored ids the request names, in stored order, repeats kept. */
  function Updated(dbIds: seq<int>, requestIds: seq<int>): (r: seq<int>)
    ensures |r| <= |dbIds|
    decreases |dbIds|
  {
    if |dbIds| == 0 then []
    else
      var init, last := dbIds[..|dbIds| - 1], dbIds[|dbIds| - 1];
      assert dbIds == init + [last];
      Updated(init, requestIds) + (if last in requestIds then [last] else [])
  }

  /** The stored ids the request does not name, in stored order. */
  function Deleted(dbIds: seq<int>, requestIds: seq<int>): (r: seq<int>)
    ensures |r| <= |dbIds|
    decreases |dbIds|
  {
    if |dbIds| == 0 then []
    else
      var init, last := dbIds[..|dbIds| - 1], dbIds[|dbIds| - 1];
      assert dbIds == init + [last];
      Deleted(init, requestIds) + (if last in requestIds then [] else [last])
  }

  /** The three lists, computed with the nested scans of the source: the
      update scan stops at the first request entry that matches, the delete
      scan looks at every entry. */
  method Diff(dbIds: seq<int>, requestIds: seq<int>) returns (createIds: seq<int>, updateIds: seq<int>, deleteIds: seq<int>)
    ensures createIds == Created(requestIds)
    ensures updateIds == Updated(dbIds, requestIds)
    ensures deleteIds == Deleted(dbIds, requestIds)
  {
    createIds := CreateScan(requestIds);
    updateIds := UpdateScan(dbIds, requestIds);
    deleteIds := DeleteScan(dbIds, requestIds);
  }

  method CreateScan(requestIds: seq<int>) returns (createIds: seq<int>)
    ensures createIds == Created(requestIds)
  {
    createIds := [];
    for i := 0 to |requestIds|
      invariant createIds == Created(requestIds[..i])
    {
      assert requestIds[..i + 1][..i] == requestIds[..i];
      if requestIds[i] < 0 {
        createIds := createIds + [requestIds[i]];
      }
    }
    assert requestIds[..|requestIds|] == requestIds;
  }

  /** Whether `x` occurs in `s`, scanning up to the first match. */
  method FirstMatch(x: int, s: seq<int>) returns (found: bool)
    ensures found <==> x in s
  {
    found := false;
    var j := 0;
    while j < |s|
      invariant 0 <= j <= |s|
      invariant x !in s[..j]
    {
      if x == s[j] {
        found := true;
        break;
      }
      assert s[..j + 1] == s[..j] + [s[j]];
      j := j + 1;
    }
    assert found || s[..j] == s;
  }

  /** Whether `x` occurs in `s`, scanning every entry. */
  method AnyMatch(x: int, s: seq<int>) returns (exist: bool)
    ensures exist <==> x in s
  {
    exist := false;
    for j := 0 to |s|
      invariant exist <==> x in s[..j]
    {
      assert s[..j + 1] == s[..j] + [s[j]];
      if x == s[j] {
        exist := true;
      }
    }
    assert s[..|s|] == s;
  }

  method UpdateScan(dbIds: seq<int>, requestIds: seq<int>) returns (updateIds: seq<int>)
    ensures updateIds == Updated(dbIds, requestIds)
  {
    updateIds := [];
    for i := 0 to |dbIds|
      invariant updateIds == Updated(dbIds[..i], requestIds)
    {
      assert dbIds[..i + 1][..i] == dbIds[..i];
      var found := FirstMatch(dbIds[i], requestIds);
      if found {
        updateIds := updateIds + [dbIds[i]];
      }
    }
    assert dbIds[..|dbIds|] == dbIds;
  }

  method DeleteScan(dbIds: seq<int>, requestIds: seq<int>) returns (deleteIds: seq<int>)
    ensures deleteIds == Deleted(dbIds, requestIds)
  {
    deleteIds := [];
    for i := 0 to |dbIds|
      invariant deleteIds == Deleted(dbIds[..i], requestIds)
    {
      assert dbIds[..i + 1][..i] == dbIds[..i];
      var exist := AnyMatch(dbIds[i], requestIds);
      if !exist {
        deleteIds := deleteIds + [dbIds[i]];
      }
    }
    assert dbIds[..|dbIds|] == dbIds;
  }

  /** The create list holds exactly the negative request ids, each as often
      as the request repeats it. */
  lemma {:induction false} CreatedMembers(requestIds: seq<int>, x: int)
    ensures x in Created(requestIds) <==> x in requestIds && x < 0
    ensures multiset(Created(requestIds))[x] == if x < 0 then multiset(requestIds)[x] else 0
    decreases |requestIds|
  {
    if |requestIds| > 0 {
      var init, last := requestIds[..|requestIds| - 1], requestIds[|requestIds| - 1];
      assert requestIds == init + [last];
      CreatedMembers(init, x);
    }
  }

  /** The update list holds exactly the stored ids the request names, each
      as often as it is stored. */
  lemma {:induction false} UpdatedMembers(dbIds: seq<int>, requestIds: seq<int>, x: int)
    ensures x in Updated(dbIds, requestIds) <==> x in dbIds && x in requestIds
    ensures multiset(Updated(dbIds, requestIds))[x] == if x in requestIds then multiset(dbIds)[x] else 0
    decreases |dbIds|
  {
    if |dbIds| > 0 {
      var init, last := dbIds[..|dbIds| - 1], dbIds[|dbIds| - 1];
      assert dbIds == init + [last];
      UpdatedMembers(init, requestIds, x);
    }
  }

  /** The delete list holds exactly the stored ids the request does not
      name, each as often as it is stored. */
  lemma {:induction false} DeletedMembers(dbIds: seq<int>, requestIds: seq<int>, x: int)
    ensures x in Deleted(dbIds, requestIds) <==> x in dbIds && x !in requestIds
    ensures multiset(Deleted(dbIds, requestIds))[x] == if x in requestIds then 0 else multiset(dbIds)[x]
    decreases |dbIds|
  {
    if |dbIds| > 0 {
      var init, last := dbIds[..|dbIds| - 1], dbIds[|dbIds| - 1];
      assert dbIds == init + [last];
      DeletedMembers(init, requestIds, x);
    }
  }

  /** Every stored id lands in exactly one of the update and delete lists:
      together they hold the stored ids, repeats and all. */
  lemma {:induction false} UpdatedDeletedPartition(dbIds: seq<int>, requestIds: seq<int>)
    ensures multiset(Updated(dbIds, requestIds)) + multiset(Deleted(dbIds, requestIds)) == multiset(dbIds)
    ensures |Updated(dbIds, requestIds)| + |Deleted(dbIds, requestIds)| == |dbIds|
    decreases |dbIds|
  {
    if |dbIds| > 0 {
      var init, last := dbIds[..|dbIds| - 1], dbIds[|dbIds| - 1];
      assert dbIds == init + [last];
      UpdatedDeletedPartition(init, requestIds);
    }
  }

  /** The split is taken entry by entry, so it keeps the stored order: the
      split of two lists one after the other is the two splits one after the
      other. */
  lemma {:induction false} SplitAppend(a: seq<int>, b: seq<int>, requestIds: seq<int>)
    ensures Updated(a + b, requestIds) == Updated(a, requestIds) + Updated(b, requestIds)
    ensures Deleted(a + b, requestIds) == Deleted(a, requestIds) + Deleted(b, requestIds)
    decreases |b|
  {
    if |b| > 0 {
      var init, last := b[..|b| - 1], b[|b| - 1];
      assert b == init + [last];
      assert a + b == (a + init) + [last];
      assert (a + b)[..|a + b| - 1] == a + init;
      SplitAppend(a, init, requestIds);
    } else {
      assert a + b == a;
    }
  }

  /** The same for the negative request ids. */
  lemma {:induction false} CreatedAppend(a: seq<int>, b: seq<int>)
    ensures Created(a + b) == Created(a) + Created(b)
    decreases |b|
  {
    if |b| > 0 {
      var init, last := b[..|b| - 1], b[|b| - 1];
      assert b == init + [last];
      assert a + b == (a + init) + [last];
      assert (a + b)[..|a + b| - 1] == a + init;
      CreatedAppend(a, init);
    } else {
      assert a + b == a;
    }
  }

  /** An empty request creates and updates nothing and deletes every stored
      id; with nothing stored, nothing is updated or deleted. */
  lemma EmptyInputs(dbIds: seq<int>, requestIds: seq<int>)
    ensures Created([]) == [] && Updated(dbIds, []) == [] && Deleted(dbIds, []) == dbIds
    ensures Updated([], requestIds) == [] && Deleted([], requestIds) == []
  {
    DeletedAll(dbIds, []);
    UpdatedDeletedPartition(dbIds, []);
  }

  /** A stored list none of whose ids is requested is deleted whole. */
  lemma {:induction false} DeletedAll(dbIds: seq<int>, requestIds: seq<int>)
    requires forall x :: x in dbIds ==> x !in requestIds
    ensures Deleted(dbIds, requestIds) == dbIds
    decreases |dbIds|
  {
    if |dbIds| > 0 {
      var init, last := dbIds[..|dbIds| - 1], dbIds[|dbIds| - 1];
      assert dbIds == init + [last];
      DeletedAll(init, requestIds);
    }
  }
}
