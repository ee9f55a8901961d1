/** The state coder: a bijection between arbitrary states and the dense codes
    0, 1, 2, ... the chains count with, codes handed out in order of first
    appearance. */
module Coder {

  /** The encoder and the decoder are mutually inverse: every encoded state
      has a code that indexes the decoder back to it, and every code of the
      decoder is the code of its state. */
  ghost predicate Inverse<T>(enc: map<T, int>, dec: seq<T>) {
    (forall x :: x in enc ==> 0 <= enc[x] < |dec| && dec[enc[x]] == x) &&
    (forall c :: 0 <= c < |dec| ==> dec[c] in enc && enc[dec[c]] == c)
  }

  /** Distinct states have distinct codes, and the codes in use are exactly
      0..|dec|-1. */
  lemma InverseCodes<T>(enc: map<T, int>, dec: seq<T>)
    requires Inverse(enc, dec)
    ensures forall x, y :: x in enc && y in enc && x != y ==> enc[x] != enc[y]
    ensures forall c :: c in enc.Values <==> 0 <= c < |dec|
    ensures enc.Keys == set c | 0 <= c < |dec| :: dec[c]
    ensures forall c, d :: 0 <= c < |dec| && 0 <= d < |dec| && c != d ==> dec[c] != dec[d]
  {
    forall c | 0 <= c < |dec|
      ensures c in enc.Values
    {
      assert enc[dec[c]] == c;
    }
  }

  /** Appending a new state under the next free code keeps the two inverse. */
  lemma InverseGrow<T>(enc: map<T, int>, dec: seq<T>, x: T)
    requires Inverse(enc, dec) && x !in enc
    ensures Inverse(enc[x := |dec|], dec + [x])
  {
    var enc', dec' := enc[x := |dec|], dec + [x];
    forall y | y in enc'
      ensures 0 <= enc'[y] < |dec'| && dec'[enc'[y]] == y
    {
      if y != x {
        assert dec'[enc[y]] == dec[enc[y]];
      }
    }
    forall c | 0 <= c < |dec'|
      ensures dec'[c] in enc' && enc'[dec'[c]] == c
    {
      if c < |dec| {
        assert dec'[c] == dec[c];
        assert dec[c] != x;
      }
    }
  }

  class StateCoder<T(==)> {
    /** The code of every state seen so far. */
    var encoder: map<T, int>
    /** The state of every code handed out so far, indexed by code. */
    var decoder: seq<T>

    ghost predicate Valid()
      reads this
    {
      Inverse(encoder, decoder)
    }

    constructor()
      ensures Valid()
      ensures encoder == map[] && decoder == []
    {
      encoder := map[];
      decoder := [];
    }

    /** The code of state: its existing code when it was seen before, and
        otherwise the number of states seen before it, which it now owns. */
    method Encode(state: T) returns (code: int)
      requires Valid()
      modifies this
      ensures Valid()
      ensures 0 <= code < |decoder| && Decode(code) == state
      ensures state in old(encoder) ==>
                code == old(encoder)[state] && encoder == old(encoder) && decoder == old(decoder)
      ensures state !in old(encoder) ==>
                code == |old(decoder)| &&
                encoder == old(encoder)[state := code] && decoder == old(decoder) + [state]
    {
      if state !in encoder {
        InverseGrow(encoder, decoder, state);
        encoder := encoder[state := |decoder|];
        decoder := decoder + [state];
      }
      code := encoder[state];
    }

    /** The state whose code is code; the code must have been handed out. */
    function Decode(code: int): (state: T)
      reads this
      requires Valid() && 0 <= code < |decoder|
      ensures state in encoder && encoder[state] == code
    {
      decoder[code]
    }
  }

  /** Encoding the words Tests, should, be, should, repeatable in a fresh
      coder hands out codes by first appearance, and decodes them back. */
  method WordsExample() returns (codes: seq<int>, back: seq<string>)
    ensures codes == [0, 1, 2, 1, 3]
    ensures back == ["should", "Tests"]
  {
    var coder := new StateCoder<string>();
    var a := coder.Encode("Tests");
    var b := coder.Encode("should");
    var first := coder.Decode(1);
    var c := coder.Encode("be");
    var d := coder.Encode("should");
    var second := coder.Decode(0);
    var e := coder.Encode("repeatable");
    codes := [a, b, c, d, e];
    back := [first, second];
  }
}
