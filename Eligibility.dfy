/** The eligibility filter: which catalog pictures a run uploads.
    The two newer runners group the catalog by FileId, keep the first
    picture of each group, then keep those with a positive library count
    that the ledger does not report as archived
    (src/Avalanche/Runner/IAvalancheRunner.cs:62-69,
    core/src/Avalanche/Runner/IAvalancheRunner.cs:45-50). The first
    program revision applies only the second step (Avalanche/Program.cs:55-56). */
module Eligibility {
  import opened Models

  predicate DistinctFileIds(pics: seq<PictureModel>) {
    forall i, j :: 0 <= i < j < |pics| ==> pics[i].fileId != pics[j].fileId
  }

  /** `a` is `b` with some elements left out, order kept. */
  predicate IsSubsequence<T(==)>(a: seq<T>, b: seq<T>)
    decreases |b|
  {
    a == [] || (b != [] && if a[0] == b[0] then IsSubsequence(a[1..], b[1..]) else IsSubsequence(a, b[1..]))
  }

  lemma {:induction false} SubsequenceMembers<T>(a: seq<T>, b: seq<T>)
    requires IsSubsequence(a, b)
    ensures forall x :: x in a ==> x in b
    decreases |b|
  {
    if a != [] {
      if a[0] == b[0] {
        SubsequenceMembers(a[1..], b[1..]);
        assert a == [a[0]] + a[1..];
      } else {
        SubsequenceMembers(a, b[1..]);
      }
    }
  }

  lemma {:induction false} SubsequenceDropHead<T>(a: seq<T>, b: seq<T>)
    requires a != [] && IsSubsequence(a, b)
    ensures IsSubsequence(a[1..], b)
    decreases |b|
  {
    if a[0] != b[0] {
      SubsequenceDropHead(a, b[1..]);
    }
    // now a[1..] is a subsequence of b[1..]
    if a[1..] != [] && a[1..][0] == b[0] {
      SubsequenceDropHead(a[1..], b[1..]);
    }
  }

  lemma {:induction false} SubsequenceTransitive<T>(a: seq<T>, b: seq<T>, c: seq<T>)
    requires IsSubsequence(a, b) && IsSubsequence(b, c)
    ensures IsSubsequence(a, c)
    decreases |c|
  {
    if a != [] {
      assert b != [];
      if b[0] == c[0] {
        if a[0] == b[0] {
          SubsequenceTransitive(a[1..], b[1..], c[1..]);
        } else {
          SubsequenceTransitive(a, b[1..], c[1..]);
        }
      } else {
        SubsequenceTransitive(a, b, c[1..]);
        if a[0] == c[0] {
          SubsequenceDropHead(a, c[1..]);
        }
      }
    }
  }

  lemma {:induction false} SubsequenceKeepsDistinct(a: seq<PictureModel>, b: seq<PictureModel>)
    requires IsSubsequence(a, b) && DistinctFileIds(b)
    ensures DistinctFileIds(a)
    decreases |b|
  {
    if a != [] {
      if a[0] == b[0] {
        SubsequenceKeepsDistinct(a[1..], b[1..]);
        SubsequenceMembers(a[1..], b[1..]);
        forall j | 0 < j < |a| ensures a[0].fileId != a[j].fileId {
          assert a[1..][j - 1] in b[1..];
          var k :| 0 <= k < |b[1..]| && b[1..][k] == a[j];
          assert b[k + 1] == a[j];
        }
      } else {
        SubsequenceKeepsDistinct(a, b[1..]);
      }
    }
  }

  /** Distinct FileIds mean no picture is listed twice. */
  lemma {:induction false} DistinctListedOnce(r: seq<PictureModel>, p: PictureModel)
    requires DistinctFileIds(r)
    ensures multiset(r)[p] <= 1
  {
    if r != [] {
      DistinctListedOnce(r[1..], p);
      assert r == [r[0]] + r[1..];
      if r[0] == p {
        forall k | 0 <= k < |r[1..]| ensures r[1..][k] != p {
          assert r[k + 1].fileId != r[0].fileId;
        }
        assert p !in r[1..];
      }
    }
  }

  /** The first picture of the catalog with FileId `f` (what `GroupBy(...).First()` picks). */
  function FirstWith(pics: seq<PictureModel>, f: Guid): (p: PictureModel)
    requires f in FileIds(pics)
    ensures p in pics && p.fileId == f
  {
    if pics[0].fileId == f then pics[0]
    else
      assert f in FileIds(pics[1..]) by {
        var q :| q in pics && q.fileId == f;
        assert q != pics[0];
      }
      FirstWith(pics[1..], f)
  }

  /** Keeps, in catalog order, the first picture of every FileId not in `seen`. */
  function FirstPerFileIdAfter(pics: seq<PictureModel>, seen: set<Guid>): (r: seq<PictureModel>)
    ensures |r| <= |pics|
  {
    if pics == [] then []
    else if pics[0].fileId in seen then FirstPerFileIdAfter(pics[1..], seen)
    else [pics[0]] + FirstPerFileIdAfter(pics[1..], seen + {pics[0].fileId})
  }

  lemma HeadFileIds(pics: seq<PictureModel>)
    requires pics != []
    ensures FileIds(pics) == {pics[0].fileId} + FileIds(pics[1..])
  {
    assert pics == [pics[0]] + pics[1..];
  }

  /** Every FileId outside `seen` survives the grouping, and no other. */
  lemma {:induction false} FirstPerFileIdAfterIds(pics: seq<PictureModel>, seen: set<Guid>)
    ensures FileIds(FirstPerFileIdAfter(pics, seen)) == FileIds(pics) - seen
  {
    if pics != [] {
      var f := pics[0].fileId;
      HeadFileIds(pics);
      if f in seen {
        FirstPerFileIdAfterIds(pics[1..], seen);
      } else {
        FirstPerFileIdAfterIds(pics[1..], seen + {f});
        HeadFileIds(FirstPerFileIdAfter(pics, seen));
      }
    }
  }

  /** Each FileId survives the grouping at most once. */
  lemma {:induction false} FirstPerFileIdAfterDistinct(pics: seq<PictureModel>, seen: set<Guid>)
    ensures DistinctFileIds(FirstPerFileIdAfter(pics, seen))
  {
    if pics != [] {
      var f := pics[0].fileId;
      if f in seen {
        FirstPerFileIdAfterDistinct(pics[1..], seen);
      } else {
        var rest := FirstPerFileIdAfter(pics[1..], seen + {f});
        FirstPerFileIdAfterDistinct(pics[1..], seen + {f});
        FirstPerFileIdAfterIds(pics[1..], seen + {f});
        forall k | 0 <= k < |rest| ensures rest[k].fileId != f {
          assert rest[k] in rest;
        }
      }
    }
  }

  /** The grouping keeps catalog order. */
  lemma {:induction false} FirstPerFileIdAfterOrder(pics: seq<PictureModel>, seen: set<Guid>)
    ensures IsSubsequence(FirstPerFileIdAfter(pics, seen), pics)
  {
    if pics != [] {
      var f := pics[0].fileId;
      if f in seen {
        var r := FirstPerFileIdAfter(pics[1..], seen);
        FirstPerFileIdAfterOrder(pics[1..], seen);
        FirstPerFileIdAfterIds(pics[1..], seen);
        if r != [] {
          assert r[0] in r;
          assert r[0].fileId !in seen;
        }
      } else {
        var r := FirstPerFileIdAfter(pics, seen);
        FirstPerFileIdAfterOrder(pics[1..], seen + {f});
        assert r[1..] == FirstPerFileIdAfter(pics[1..], seen + {f});
      }
    }
  }

  /** The picture kept for a FileId is the first one the catalog lists. */
  lemma {:induction false} FirstPerFileIdAfterFirst(pics: seq<PictureModel>, seen: set<Guid>)
    ensures forall p :: p in FirstPerFileIdAfter(pics, seen) ==>
              p.fileId in FileIds(pics) && p == FirstWith(pics, p.fileId)
  {
    if pics != [] {
      var f := pics[0].fileId;
      HeadFileIds(pics);
      var seen' := if f in seen then seen else seen + {f};
      var rest := FirstPerFileIdAfter(pics[1..], seen');
      FirstPerFileIdAfterFirst(pics[1..], seen');
      FirstPerFileIdAfterIds(pics[1..], seen');
      forall p | p in rest ensures p.fileId != f {
        assert p.fileId in FileIds(rest);
      }
    }
  }

  /** `GroupBy(a => a.FileId).Select(a => a.First())`. */
  function FirstPerFileId(pics: seq<PictureModel>): (r: seq<PictureModel>)
  {
    FirstPerFileIdAfter(pics, {})
  }

  /** The `Where` condition: still in a library and not yet in the ledger. */
  predicate Eligible(p: PictureModel, archived: set<Guid>) {
    p.libraryCount > 0 && p.fileId !in archived
  }

  /** `.Where(a => a.LibraryCount > 0 && !FileIsArchived(a.FileId))`. */
  function KeepEligible(pics: seq<PictureModel>, archived: set<Guid>): (r: seq<PictureModel>)
    ensures IsSubsequence(r, pics)
    ensures forall p :: multiset(r)[p] == if Eligible(p, archived) then multiset(pics)[p] else 0
  {
    if pics == [] then []
    else
      var rest := KeepEligible(pics[1..], archived);
      assert multiset(pics) == multiset{pics[0]} + multiset(pics[1..]) by {
        assert pics == [pics[0]] + pics[1..];
      }
      if Eligible(pics[0], archived) then
        var r := [pics[0]] + rest;
        assert r[1..] == rest;
        r
      else
        assert rest != [] ==> rest[0] != pics[0] by {
          if rest != [] {
            assert multiset(rest)[rest[0]] > 0;
          }
        }
        rest
  }

  /** The to-do list of the two newer runners. */
  function ToArchive(pics: seq<PictureModel>, archived: set<Guid>): seq<PictureModel>
  {
    KeepEligible(FirstPerFileId(pics), archived)
  }

  /** What the newer runners upload: one picture per FileId, the first one
      in catalog order, provided it is eligible; the order is catalog order.
      A FileId whose first picture is not eligible is dropped even when a
      later duplicate would be. */
  lemma ToArchiveSpec(pics: seq<PictureModel>, archived: set<Guid>)
    ensures var r := ToArchive(pics, archived);
      && DistinctFileIds(r)
      && IsSubsequence(r, pics)
      && (forall p :: p in r ==> p.fileId in FileIds(pics) && p == FirstWith(pics, p.fileId) && Eligible(p, archived))
      && (forall f :: f in FileIds(pics) && Eligible(FirstWith(pics, f), archived) ==> f in FileIds(r))
  {
    var d := FirstPerFileId(pics);
    var r := ToArchive(pics, archived);
    FirstPerFileIdAfterIds(pics, {});
    FirstPerFileIdAfterDistinct(pics, {});
    FirstPerFileIdAfterOrder(pics, {});
    FirstPerFileIdAfterFirst(pics, {});
    SubsequenceTransitive(r, d, pics);
    SubsequenceKeepsDistinct(r, d);
    forall p | p in r ensures p in d && Eligible(p, archived) {
      assert multiset(r)[p] > 0;
    }
    forall f | f in FileIds(pics) && Eligible(FirstWith(pics, f), archived) ensures f in FileIds(r) {
      assert f in FileIds(d);
      var q :| q in d && q.fileId == f;
      assert multiset(r)[q] == multiset(d)[q] > 0;
      assert q in r;
    }
  }

  /** A catalog without repeated FileIds passes the grouping step unchanged. */
  lemma {:induction false} FirstPerFileIdOfDistinct(pics: seq<PictureModel>, seen: set<Guid>)
    requires DistinctFileIds(pics)
    requires forall p :: p in pics ==> p.fileId !in seen
    ensures FirstPerFileIdAfter(pics, seen) == pics
  {
    if pics != [] {
      assert forall p :: p in pics[1..] ==> p.fileId != pics[0].fileId by {
        forall p | p in pics[1..] ensures p.fileId != pics[0].fileId {
          var k :| 0 <= k < |pics[1..]| && pics[1..][k] == p;
          assert pics[k + 1] == p;
        }
      }
      FirstPerFileIdOfDistinct(pics[1..], seen + {pics[0].fileId});
    }
  }

  /** The first program revision does not group: a picture listed twice in
      the catalog, and eligible, is on its to-do list twice. */
  lemma DuplicateKeptWithoutGrouping(pics: seq<PictureModel>, archived: set<Guid>, i: nat, j: nat)
    requires i < j < |pics| && pics[i] == pics[j] && Eligible(pics[i], archived)
    ensures multiset(KeepEligible(pics, archived))[pics[i]] >= 2
  {
    assert pics == pics[..i] + [pics[i]] + pics[i + 1..j] + [pics[j]] + pics[j + 1..];
  }

  /** The newer runners list a picture at most once, however often the
      catalog repeats it. */
  lemma GroupedListsOnce(pics: seq<PictureModel>, archived: set<Guid>, p: PictureModel)
    ensures multiset(ToArchive(pics, archived))[p] <= 1
  {
    ToArchiveSpec(pics, archived);
    DistinctListedOnce(ToArchive(pics, archived), p);
  }
}
