/** Cutting a sequence into consecutive pieces before a given list of positions,
    and putting the pieces back together. This is the reference against which the
    parser's chunking loop is proved. */
module Segmentation {

  /** Cut positions for a sequence of length `n`: strictly increasing, each
      strictly inside the sequence (a cut at 0 or at `n` would make an empty piece). */
  predicate ValidCuts(cuts: seq<int>, n: int)
  {
    && (forall k :: 0 <= k < |cuts| ==> 0 < cuts[k] < n)
    && (forall j, k :: 0 <= j < k < |cuts| ==> cuts[j] < cuts[k])
  }

  /** The pieces of `s` obtained by cutting it before every position in `cuts`. */
  function Split<T>(s: seq<T>, cuts: seq<int>): (r: seq<seq<T>>)
    requires ValidCuts(cuts, |s|)
    ensures |r| == |cuts| + 1
    decreases |cuts|
  {
    if cuts == [] then [s]
    else
      var k := cuts[|cuts| - 1];
      Split(s[..k], cuts[..|cuts| - 1]) + [s[k..]]
  }

  /** Concatenation of a list of pieces, left to right. */
  function Concat<T>(pieces: seq<seq<T>>): seq<T>
  {
    if pieces == [] then [] else Concat(pieces[..|pieces| - 1]) + pieces[|pieces| - 1]
  }

  /** The position at which each piece starts in the concatenation. */
  function Offsets<T>(pieces: seq<seq<T>>): (r: seq<int>)
    ensures |r| == |pieces|
  {
    if pieces == [] then []
    else
      var init := pieces[..|pieces| - 1];
      Offsets(init) + [|Concat(init)|]
  }

  /** Cutting loses nothing and adds nothing. */
  lemma {:induction false} SplitConcat<T>(s: seq<T>, cuts: seq<int>)
    requires ValidCuts(cuts, |s|)
    ensures Concat(Split(s, cuts)) == s
    decreases |cuts|
  {
    if cuts != [] {
      var k := cuts[|cuts| - 1];
      var r := Split(s, cuts);
      SplitConcat(s[..k], cuts[..|cuts| - 1]);
      assert r[..|r| - 1] == Split(s[..k], cuts[..|cuts| - 1]);
      assert s[..k] + s[k..] == s;
    }
  }

  /** Piece 0 starts at 0 and piece j + 1 starts at the j-th cut. */
  lemma {:induction false} SplitOffsets<T>(s: seq<T>, cuts: seq<int>)
    requires ValidCuts(cuts, |s|)
    ensures Offsets(Split(s, cuts)) == [0] + cuts
    decreases |cuts|
  {
    if cuts != [] {
      var k := cuts[|cuts| - 1];
      var r := Split(s, cuts);
      var init := cuts[..|cuts| - 1];
      SplitOffsets(s[..k], init);
      SplitConcat(s[..k], init);
      assert r[..|r| - 1] == Split(s[..k], init);
      assert [0] + cuts == [0] + init + [k];
    }
  }

  /** Of a non-empty sequence, no piece is empty. */
  lemma {:induction false} SplitNonEmpty<T>(s: seq<T>, cuts: seq<int>)
    requires |s| > 0 && ValidCuts(cuts, |s|)
    ensures forall j :: 0 <= j < |Split(s, cuts)| ==> |Split(s, cuts)[j]| > 0
    decreases |cuts|
  {
    if cuts != [] {
      var k := cuts[|cuts| - 1];
      SplitNonEmpty(s[..k], cuts[..|cuts| - 1]);
    }
  }

  /** Piece j runs from the j-th bound to the next, where the bounds are 0, the
      cuts, and |s|. */
  lemma {:induction false} SplitPiece<T>(s: seq<T>, cuts: seq<int>, j: int)
    requires ValidCuts(cuts, |s|) && 0 <= j <= |cuts|
    ensures var bounds := [0] + cuts + [|s|];
      Split(s, cuts)[j] == s[bounds[j]..bounds[j + 1]]
    decreases |cuts|
  {
    if cuts != [] && j < |cuts| {
      var k := cuts[|cuts| - 1];
      var init := cuts[..|cuts| - 1];
      SplitPiece(s[..k], init, j);
      var bounds := [0] + cuts + [|s|];
      var bounds' := [0] + init + [k];
      assert bounds'[j] == bounds[j] && bounds'[j + 1] == bounds[j + 1];
    }
  }

  /** Growing `s` by one element without a new cut extends the last piece. */
  lemma ExtendLast<T>(s: seq<T>, cuts: seq<int>, x: T)
    requires ValidCuts(cuts, |s|)
    ensures ValidCuts(cuts, |s| + 1)
    ensures Split(s + [x], cuts) == Split(s, cuts)[..|cuts|] + [Split(s, cuts)[|cuts|] + [x]]
  {
    if cuts != [] {
      var k := cuts[|cuts| - 1];
      assert (s + [x])[..k] == s[..k];
      assert (s + [x])[k..] == s[k..] + [x];
    }
  }

  /** Growing `s` by one element with a cut just before it starts a new piece. */
  lemma CutBeforeLast<T>(s: seq<T>, cuts: seq<int>, x: T)
    requires |s| > 0 && ValidCuts(cuts, |s|)
    ensures ValidCuts(cuts + [|s|], |s| + 1)
    ensures Split(s + [x], cuts + [|s|]) == Split(s, cuts) + [[x]]
  {
    var cs := cuts + [|s|];
    assert cs[..|cs| - 1] == cuts;
    assert (s + [x])[..|s|] == s;
  }

  /** The positions in [1, n) that satisfy `cut`, in increasing order. */
  function CutsWhere(cut: int -> bool, n: int): (cuts: seq<int>)
    ensures ValidCuts(cuts, n)
    ensures forall k :: 0 <= k < |cuts| ==> cut(cuts[k])
    decreases n
  {
    if n <= 1 then []
    else
      var below := CutsWhere(cut, n - 1);
      if cut(n - 1) then
        var cuts := below + [n - 1];
        assert forall k :: 0 <= k < |below| ==> cuts[k] == below[k];
        cuts
      else below
  }

  /** Every position in [1, n) that satisfies `cut` is among the cuts. */
  lemma {:induction false} CutsWhereComplete(cut: int -> bool, n: int, i: int)
    requires 1 <= i < n && cut(i)
    ensures i in CutsWhere(cut, n)
    decreases n
  {
    if i < n - 1 {
      CutsWhereComplete(cut, n - 1, i);
    }
  }

  /** A position in [1, n) is a cut exactly when it satisfies `cut`. */
  lemma CutsWhereMember(cut: int -> bool, n: int, i: int)
    requires 1 <= i < n
    ensures i in CutsWhere(cut, n) <==> cut(i)
  {
    if cut(i) {
      CutsWhereComplete(cut, n, i);
    }
  }

  /** The positions in [1, n) that satisfy `cut`, as a set. */
  ghost function Satisfying(cut: int -> bool, n: int): set<int>
  {
    set i | 1 <= i < n && cut(i)
  }

  /** There are as many cuts as positions that satisfy `cut`. */
  lemma {:induction false} CutsWhereCount(cut: int -> bool, n: int)
    ensures |CutsWhere(cut, n)| == |Satisfying(cut, n)|
    decreases n
  {
    if n <= 1 {
      assert Satisfying(cut, n) == {};
    } else {
      CutsWhereCount(cut, n - 1);
      var below := Satisfying(cut, n - 1);
      assert n - 1 !in below;
      if cut(n - 1) {
        assert Satisfying(cut, n) == below + {n - 1};
      } else {
        assert Satisfying(cut, n) == below;
      }
    }
  }

  /** When every position satisfies `cut`, the cuts are 1, 2, ..., n - 1. */
  lemma {:induction false} CutsWhereEverywhere(cut: int -> bool, n: int)
    requires forall i :: 1 <= i < n ==> cut(i)
    ensures |CutsWhere(cut, n)| == if n <= 1 then 0 else n - 1
    ensures forall k :: 0 <= k < |CutsWhere(cut, n)| ==> CutsWhere(cut, n)[k] == k + 1
    decreases n
  {
    if n > 1 {
      CutsWhereEverywhere(cut, n - 1);
    }
  }

  /** Appends x to the last piece. */
  function AppendToLast<T>(pieces: seq<seq<T>>, x: T): (r: seq<seq<T>>)
    requires pieces != []
    ensures Concat(r) == Concat(pieces) + [x]
  {
    var init := pieces[..|pieces| - 1];
    var appended := init + [pieces[|pieces| - 1] + [x]];
    assert appended[..|appended| - 1] == init;
    appended
  }

  /** One step of a left-to-right scan over s: when `cut(i)` holds an empty piece
      is opened, and s[i] is appended to the last piece. The pieces of s[..i] become
      the pieces of s[..i + 1]. */
  lemma ScanStep<T>(s: seq<T>, cut: int -> bool, i: int, pieces: seq<seq<T>>)
    requires 1 <= i < |s|
    requires pieces == Split(s[..i], CutsWhere(cut, i))
    ensures AppendToLast(if cut(i) then pieces + [[]] else pieces, s[i])
              == Split(s[..i + 1], CutsWhere(cut, i + 1))
  {
    assert s[..i + 1] == s[..i] + [s[i]];
    if cut(i) {
      ScanOpens(s[..i], CutsWhere(cut, i), s[i]);
    } else {
      ExtendLast(s[..i], CutsWhere(cut, i), s[i]);
    }
  }

  /** Opening an empty piece and appending x to it adds the piece [x]. */
  lemma ScanOpens<T>(s: seq<T>, cuts: seq<int>, x: T)
    requires |s| > 0 && ValidCuts(cuts, |s|)
    ensures ValidCuts(cuts + [|s|], |s| + 1)
    ensures AppendToLast(Split(s, cuts) + [[]], x) == Split(s + [x], cuts + [|s|])
  {
    CutBeforeLast(s, cuts, x);
    var pieces := Split(s, cuts);
    var r := AppendToLast(pieces + [[]], x);
    assert r[..|r| - 1] == pieces;
    assert r[|r| - 1] == [x];
  }

  /** With no position satisfying `cut`, the whole sequence is one piece. */
  lemma SplitNowhere<T>(s: seq<T>, cut: int -> bool)
    requires forall i :: 1 <= i < |s| ==> !cut(i)
    ensures Split(s, CutsWhere(cut, |s|)) == [s]
  {
    CutsWhereCount(cut, |s|);
    assert Satisfying(cut, |s|) == {};
  }

  /** Cutting before every position but 0 gives one-element pieces. */
  lemma {:induction false} SplitUnits<T>(s: seq<T>, cuts: seq<int>)
    requires |s| > 0 && |cuts| == |s| - 1
    requires forall k :: 0 <= k < |cuts| ==> cuts[k] == k + 1
    ensures ValidCuts(cuts, |s|)
    ensures forall j :: 0 <= j < |s| ==> Split(s, cuts)[j] == [s[j]]
    decreases |s|
  {
    if cuts != [] {
      var k := |s| - 1;
      var init := cuts[..|cuts| - 1];
      SplitUnits(s[..k], init);
      var r := Split(s, cuts);
      assert r[..k] == Split(s[..k], init);
      assert r[k] == s[k..] == [s[k]];
      forall j | 0 <= j < k ensures r[j] == [s[j]] {
        assert r[j] == r[..k][j];
      }
    }
  }

  /** With every position satisfying `cut`, every element is a piece of its own. */
  lemma SplitEverywhere<T>(s: seq<T>, cut: int -> bool)
    requires s != []
    requires forall i :: 1 <= i < |s| ==> cut(i)
    ensures |Split(s, CutsWhere(cut, |s|))| == |s|
    ensures forall j :: 0 <= j < |s| ==> Split(s, CutsWhere(cut, |s|))[j] == [s[j]]
  {
    CutsWhereEverywhere(cut, |s|);
    SplitUnits(s, CutsWhere(cut, |s|));
  }
}
