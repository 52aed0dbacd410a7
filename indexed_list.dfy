/**
 * `_IndexedList`: a view of a string as the list of pieces between consecutive offsets of an
 * index, each piece ending one separator before the next offset.
 */
module IndexedList {
  import opened Wrappers
  import opened PyText

  /** The pieces s[I[k] : I[k+1] - |sep|] for every consecutive pair of offsets. */
  function Pieces(m: string, index: seq<int>, sep: string): seq<string>
    decreases |index|
  {
    if |index| < 2 then []
    else [Slice(m, index[0], index[1] - |sep|)] + Pieces(m, index[1..], sep)
  }

  /** There is one piece for each consecutive pair of offsets. */
  lemma {:induction false} PiecesSpec(m: string, index: seq<int>, sep: string)
    ensures var ps := Pieces(m, index, sep);
      && |ps| == (if |index| == 0 then 0 else |index| - 1)
      && forall k :: 0 <= k < |ps| ==> ps[k] == Slice(m, index[k], index[k + 1] - |sep|)
    decreases |index|
  {
    if |index| >= 2 {
      var tail := index[1..];
      var head, rest := Slice(m, index[0], index[1] - |sep|), Pieces(m, tail, sep);
      PiecesSpec(m, tail, sep);
      var ps := [head] + rest;
      assert Pieces(m, index, sep) == ps;
      forall k | 0 <= k < |ps|
        ensures ps[k] == Slice(m, index[k], index[k + 1] - |sep|)
      {
        if k > 0 {
          assert ps[k] == rest[k - 1] && tail[k - 1] == index[k] && tail[k] == index[k + 1];
        }
      }
    }
  }

  datatype IndexedList = IndexedList(message: string, index: seq<int>, separator: string)
  {
    /** `__len__` */
    function Len(): int {
      |index| - 1
    }

    /** `__getitem__`: a negative position counts back from `Len()` once; the list lookups
        then follow Python's rules, and a missing offset is an IndexError (None). */
    function Get(idx: int): Option<string> {
      var i := if idx < 0 then idx + Len() else idx;
      match (At(index, i), At(index, i + 1))
      case (Some(lo), Some(hi)) => Some(Slice(message, lo, hi - |separator|))
      case _ => None
    }

    /** What iterating over the list yields: Python calls `__getitem__` with 0, 1, 2, ...
        and stops at the first IndexError. */
    function Items(): seq<string> {
      ItemsFrom(0)
    }

    function ItemsFrom(k: nat): seq<string>
      decreases |index| - k
    {
      match Get(k)
      case None => []
      case Some(item) => [item] + ItemsFrom(k + 1)
    }

    /** The items cut `whole` at the separator: there is one fewer than offsets and at least
        one, none holds the separator, joining them with it gives `whole` back, and each is
        read the same from the front and from the back. */
    predicate SplitsInto(whole: string) {
      var ps := Items();
      && |ps| == |index| - 1 >= 1
      && (forall k :: 0 <= k < |ps| ==> Lacks(ps[k], separator))
      && Join(ps, separator) == whole
      && (forall k :: 0 <= k < |ps| ==> Get(k) == Some(ps[k]))
      && (forall k :: 0 <= k < |ps| ==> Get(k - |ps|) == Some(ps[k]))
    }
  }

  /** Iteration yields exactly the pieces of the index, one fewer than its offsets; a valid
      position reads the same piece whether given from the front or from the back, and the
      lookup one past the end is the IndexError that stops the iteration. */
  lemma {:induction false} ItemsArePieces(l: IndexedList)
    requires |l.index| >= 1
    ensures l.Items() == Pieces(l.message, l.index, l.separator)
    ensures |l.Items()| == l.Len()
    ensures forall k :: 0 <= k < l.Len() ==> l.Get(k) == Some(l.Items()[k])
    ensures forall k :: -l.Len() <= k < 0 ==> l.Get(k) == Some(l.Items()[k + l.Len()])
    ensures l.Get(l.Len()) == None
  {
    ItemsFromArePieces(l, 0);
    assert l.index[0..] == l.index;
    PiecesSpec(l.message, l.index, l.separator);
    var ps := Pieces(l.message, l.index, l.separator);
    forall k | 0 <= k < l.Len()
      ensures l.Get(k) == Some(ps[k])
    {
      GetInRange(l, k);
    }
    forall k | -l.Len() <= k < 0
      ensures l.Get(k) == Some(ps[k + l.Len()])
    {
      GetInRange(l, k + l.Len());
    }
  }

  /** Step of `ItemsArePieces`: one valid position, from the front and from the back. */
  lemma {:induction false} GetInRange(l: IndexedList, k: int)
    requires 0 <= k < l.Len()
    ensures l.Get(k) == Some(Slice(l.message, l.index[k], l.index[k + 1] - |l.separator|))
    ensures l.Get(k - l.Len()) == l.Get(k)
  {
  }

  lemma {:induction false} ItemsFromArePieces(l: IndexedList, k: nat)
    requires k <= |l.index|
    ensures l.ItemsFrom(k) == Pieces(l.message, l.index[k..], l.separator)
    decreases |l.index| - k
  {
    if k + 1 < |l.index| {
      ItemsFromArePieces(l, k + 1);
      assert l.index[k..][1..] == l.index[k + 1..];
    }
  }

  /** The offsets of `index` mark pieces of `m` separated by `sep`: every inner offset lies just
      after an occurrence of `sep` that does not overlap the piece before it. */
  predicate Chained(m: string, index: seq<int>, sep: string) {
    && |index| >= 2
    && 0 <= index[0]
    && (forall k :: 0 < k < |index| - 1 ==> Link(m, index, sep, k))
    && (|index| > 2 ==> index[|index| - 2] + |sep| <= index[|index| - 1])
  }

  predicate Link(m: string, index: seq<int>, sep: string, k: int)
    requires 0 < k < |index|
  {
    index[k - 1] + |sep| <= index[k] <= |m| && OccursAt(m, sep, index[k] - |sep|)
  }

  /** Joining the pieces with the separator gives back the text they were cut from. */
  lemma {:induction false} JoinPieces(m: string, index: seq<int>, sep: string)
    requires Chained(m, index, sep)
    ensures Join(Pieces(m, index, sep), sep) == Slice(m, index[0], index[|index| - 1] - |sep|)
    ensures |index| > 2 ==> index[0] + |sep| <= index[|index| - 1] - |sep|
    decreases |index|
  {
    if |index| > 2 {
      var tail := index[1..];
      ChainedTail(m, index, sep);
      JoinPieces(m, tail, sep);
      assert tail[|tail| - 1] == index[|index| - 1];
      JoinStep(m, index, sep);
    } else {
      assert Pieces(m, index[1..], sep) == [];
      assert Pieces(m, index, sep) == [Slice(m, index[0], index[1] - |sep|)];
    }
  }

  /** The first piece, the separator after it and the join of the rest make up the whole. */
  lemma {:induction false} JoinStep(m: string, index: seq<int>, sep: string)
    requires |index| > 2 && 0 <= index[0] && index[0] + |sep| <= index[1] <= |m|
    requires OccursAt(m, sep, index[1] - |sep|)
    requires index[1] + |sep| <= index[|index| - 1]
    requires Join(Pieces(m, index[1..], sep), sep) == Slice(m, index[1], index[|index| - 1] - |sep|)
    ensures Join(Pieces(m, index, sep), sep) == Slice(m, index[0], index[|index| - 1] - |sep|)
  {
    var tail, last := index[1..], index[|index| - 1];
    SliceSplit(m, index[0], index[1], sep, last);
    var head, rest := Slice(m, index[0], index[1] - |sep|), Slice(m, index[1], last - |sep|);
    PiecesCons(m, index, sep);
    JoinCons(head, Pieces(m, tail, sep), sep);
    assert Join(Pieces(m, index, sep), sep) == Join([head] + Pieces(m, tail, sep), sep);
    assert Join([head] + Pieces(m, tail, sep), sep) == head + sep + Join(Pieces(m, tail, sep), sep);
    assert Join(Pieces(m, tail, sep), sep) == rest;
    assert head + sep + rest == Slice(m, index[0], last - |sep|);
  }

  lemma {:induction false} PiecesCons(m: string, index: seq<int>, sep: string)
    requires |index| > 2
    ensures Pieces(m, index, sep) == [Slice(m, index[0], index[1] - |sep|)] + Pieces(m, index[1..], sep)
    ensures |Pieces(m, index[1..], sep)| >= 1
  {
  }

  lemma {:induction false} JoinCons(head: string, rest: seq<string>, sep: string)
    requires |rest| >= 1
    ensures Join([head] + rest, sep) == head + sep + Join(rest, sep)
  {
    assert ([head] + rest)[1..] == rest;
  }

  lemma {:induction false} ChainedTail(m: string, index: seq<int>, sep: string)
    requires Chained(m, index, sep) && |index| > 2
    ensures Chained(m, index[1..], sep)
    ensures index[0] + |sep| <= index[1] <= |m| && OccursAt(m, sep, index[1] - |sep|)
  {
    var tail := index[1..];
    assert Link(m, index, sep, 1);
    forall k | 0 < k < |tail| - 1
      ensures Link(m, tail, sep, k)
    {
      assert Link(m, index, sep, k + 1);
    }
  }

  lemma {:induction false} SliceSplit(m: string, a: int, b: int, sep: string, last: int)
    requires 0 <= a && a + |sep| <= b <= |m| && b <= last - |sep| && OccursAt(m, sep, b - |sep|)
    ensures Slice(m, a, b - |sep|) + sep + Slice(m, b, last - |sep|) == Slice(m, a, last - |sep|)
  {
    var n := |sep|;
    assert m[b - n..b] == sep;
    var e := if last - n <= |m| then last - n else |m|;
    assert Slice(m, b, last - n) == m[b..e];
    assert Slice(m, a, last - n) == m[a..e];
    assert m[a..e] == m[a..b - n] + m[b - n..b] + m[b..e];
  }
}
