/**
 * The converter builds every output string the same way: split the text into
 * code points, turn each code point into a short piece, and join the pieces
 * (`Array.from(text).map(piece).join("")`). MapJoin is that shape, and the
 * lemmas here say where each piece lands in the joined result.
 */
module Strings {

  function MapJoin<A, B>(s: seq<A>, piece: A -> seq<B>): seq<B>
  {
    if s == [] then [] else piece(s[0]) + MapJoin(s[1..], piece)
  }

  /** Joining distributes over concatenation of the input. */
  lemma {:induction false} MapJoinAppend<A, B>(a: seq<A>, b: seq<A>, piece: A -> seq<B>)
    ensures MapJoin(a + b, piece) == MapJoin(a, piece) + MapJoin(b, piece)
  {
    if a == [] {
      assert a + b == b;
    } else {
      assert (a + b)[1..] == a[1..] + b;
      MapJoinAppend(a[1..], b, piece);
    }
  }

  /** The piece of element i sits right after the pieces of the elements before it. */
  lemma {:induction false} MapJoinAt<A, B>(s: seq<A>, piece: A -> seq<B>, i: nat)
    requires i < |s|
    ensures MapJoin(s[..i + 1], piece) == MapJoin(s[..i], piece) + piece(s[i])
    ensures MapJoin(s, piece) == MapJoin(s[..i + 1], piece) + MapJoin(s[i + 1..], piece)
  {
    assert [s[i]][1..] == [];
    assert MapJoin([s[i]], piece) == piece(s[i]);
    assert s[..i + 1] == s[..i] + [s[i]];
    MapJoinAppend(s[..i], [s[i]], piece);
    assert s == s[..i + 1] + s[i + 1..];
    MapJoinAppend(s[..i + 1], s[i + 1..], piece);
  }

  /** With one-element pieces the join keeps the length and works position by position. */
  lemma {:induction false} MapJoinUnitPieces<A, B>(s: seq<A>, piece: A -> seq<B>)
    requires forall x :: |piece(x)| == 1
    ensures |MapJoin(s, piece)| == |s|
    ensures forall i :: 0 <= i < |s| ==> MapJoin(s, piece)[i] == piece(s[i])[0]
  {
    if s != [] {
      MapJoinUnitPieces(s[1..], piece);
      assert forall i :: 1 <= i < |s| ==> s[i] == s[1..][i - 1];
    }
  }

  /** With two-element pieces element i becomes output positions 2i and 2i+1. */
  lemma {:induction false} MapJoinPairPieces<A, B>(s: seq<A>, piece: A -> seq<B>)
    requires forall x :: |piece(x)| == 2
    ensures |MapJoin(s, piece)| == 2 * |s|
    ensures forall i :: 0 <= i < |s| ==>
      MapJoin(s, piece)[2 * i] == piece(s[i])[0] && MapJoin(s, piece)[2 * i + 1] == piece(s[i])[1]
  {
    if s != [] {
      MapJoinPairPieces(s[1..], piece);
      var r := MapJoin(s, piece);
      forall i | 0 <= i < |s|
        ensures r[2 * i] == piece(s[i])[0] && r[2 * i + 1] == piece(s[i])[1]
      {
        if i > 0 {
          assert s[i] == s[1..][i - 1];
          assert r[2 * i] == MapJoin(s[1..], piece)[2 * (i - 1)];
          assert r[2 * i + 1] == MapJoin(s[1..], piece)[2 * (i - 1) + 1];
        }
      }
    }
  }

  /** Pieces of one or two elements give a join between one and two times as long. */
  lemma {:induction false} MapJoinBounds<A, B>(s: seq<A>, piece: A -> seq<B>)
    requires forall x :: 1 <= |piece(x)| <= 2
    ensures |s| <= |MapJoin(s, piece)| <= 2 * |s|
  {
    if s != [] {
      MapJoinBounds(s[1..], piece);
    }
  }
}
