/** The borrowed-books screen's return action: every entry carrying the
    returned identifier is filtered out of the list the screen holds. */
module BorrowedBooks {
  import opened Books
  import opened Seqs

  /** The filter predicate of `returnBook(id)`: keep entries with another id. */
  function KeepsOtherThan(id: string): Book -> bool
  {
    (b: Book) => b.id != id
  }

  /** The list after returning `id`: no entry with that id is left, every other
      entry is kept as often as before, and the survivors keep their order. */
  function Return(borrowed: seq<Book>, id: string): (r: seq<Book>)
    ensures |r| <= |borrowed|
    ensures !HasId(r, id)
    ensures forall b: Book :: b.id != id ==> multiset(r)[b] == multiset(borrowed)[b]
    ensures IsSubsequence(r, borrowed)
  {
    FilterContents(KeepsOtherThan(id), borrowed);
    Filter(KeepsOtherThan(id), borrowed)
  }

  /** Returning an identifier that is not in the list leaves the list as it is. */
  lemma ReturnAbsentIsIdentity(borrowed: seq<Book>, id: string)
    requires !HasId(borrowed, id)
    ensures Return(borrowed, id) == borrowed
  {
    forall b | b in borrowed
      ensures KeepsOtherThan(id)(b)
    {
      var i :| 0 <= i < |borrowed| && borrowed[i] == b;
    }
    FilterAllPass(KeepsOtherThan(id), borrowed);
  }

  /** Returning the same identifier twice is the same as returning it once. */
  lemma ReturnIdempotent(borrowed: seq<Book>, id: string)
    ensures Return(Return(borrowed, id), id) == Return(borrowed, id)
  {
    ReturnAbsentIsIdentity(Return(borrowed, id), id);
  }

  /** With unique ids, returning the id at position `k` removes exactly that
      entry, so the list gets one shorter. */
  lemma ReturnRemovesOne(borrowed: seq<Book>, id: string, k: int)
    requires UniqueIds(borrowed)
    requires 0 <= k < |borrowed| && borrowed[k].id == id
    ensures Return(borrowed, id) == borrowed[..k] + borrowed[k + 1..]
    ensures |Return(borrowed, id)| == |borrowed| - 1
  {
    var p := KeepsOtherThan(id);
    var before, after := borrowed[..k], borrowed[k + 1..];
    assert borrowed == before + ([borrowed[k]] + after);
    FilterAppend(p, before, [borrowed[k]] + after);
    FilterAppend(p, [borrowed[k]], after);
    assert !HasId(before, id) by {
      forall i | 0 <= i < |before| ensures before[i].id != id {
        assert before[i] == borrowed[i];
      }
    }
    assert !HasId(after, id) by {
      forall i | 0 <= i < |after| ensures after[i].id != id {
        assert after[i] == borrowed[k + 1 + i];
      }
    }
    ReturnAbsentIsIdentity(before, id);
    ReturnAbsentIsIdentity(after, id);
    assert Filter(p, [borrowed[k]]) == [];
  }

  /** A list has unique ids exactly when its head's id is not in its tail and
      its tail has unique ids. */
  lemma UniqueIdsCons(s: seq<Book>)
    requires s != []
    ensures UniqueIds(s) <==> !HasId(s[1..], s[0].id) && UniqueIds(s[1..])
  {
    var tail := s[1..];
    if UniqueIds(s) {
      forall i, j | 0 <= i < j < |tail| ensures tail[i].id != tail[j].id {
        assert tail[i] == s[i + 1] && tail[j] == s[j + 1];
      }
    }
    if !HasId(tail, s[0].id) && UniqueIds(tail) {
      forall i, j | 0 <= i < j < |s| ensures s[i].id != s[j].id {
        assert s[j] == tail[j - 1];
        if i > 0 {
          assert s[i] == tail[i - 1];
        }
      }
    }
  }

  /** Filtering cannot introduce an id the list did not have. */
  lemma FilterKeepsAbsentId(p: Book -> bool, s: seq<Book>, id: string)
    requires !HasId(s, id)
    ensures !HasId(Filter(p, s), id)
  {
    FilterContents(p, s);
  }

  /** Filtering a list whose ids are unique leaves them unique. */
  lemma {:induction false} FilterKeepsUniqueIds(p: Book -> bool, s: seq<Book>)
    requires UniqueIds(s)
    ensures UniqueIds(Filter(p, s))
    decreases |s|
  {
    if s != [] {
      UniqueIdsCons(s);
      FilterKeepsUniqueIds(p, s[1..]);
      if p(s[0]) {
        var r := Filter(p, s);
        assert r == [s[0]] + Filter(p, s[1..]);
        assert r[1..] == Filter(p, s[1..]);
        FilterKeepsAbsentId(p, s[1..], s[0].id);
        UniqueIdsCons(r);
      }
    }
  }

  /** Return keeps the borrowed-list invariant. */
  lemma ReturnPreservesValid(borrowed: seq<Book>, id: string)
    ensures Valid(borrowed) ==> Valid(Return(borrowed, id))
  {
    if Valid(borrowed) {
      FilterKeepsUniqueIds(KeepsOtherThan(id), borrowed);
    }
  }
}
