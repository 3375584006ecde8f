/** Concatenating a sequence of sequences, used both for the batches the
    uploader cuts and for the readings collected well by well, and keeping
    the present values of a sequence of optional ones, as a loop that
    appends only what it found does. */
module Seqs {
  import opened Wrappers

  /** The pieces put back together, in order. */
  function Flatten<T>(cs: seq<seq<T>>): seq<T> {
    if |cs| == 0 then [] else cs[0] + Flatten(cs[1..])
  }

  /** Appending one more piece appends its items. */
  lemma {:induction false} FlattenSnoc<T>(cs: seq<seq<T>>, c: seq<T>)
    ensures Flatten(cs + [c]) == Flatten(cs) + c
  {
    if |cs| > 0 {
      assert (cs + [c])[1..] == cs[1..] + [c];
      FlattenSnoc(cs[1..], c);
    } else {
      assert cs + [c] == [c];
    }
  }

  /** An item of the concatenation is an item of some piece, and every item
      of every piece is in the concatenation. */
  lemma {:induction false} FlattenMember<T>(cs: seq<seq<T>>, x: T)
    ensures x in Flatten(cs) <==> exists k | 0 <= k < |cs| :: x in cs[k]
  {
    if |cs| > 0 {
      FlattenMember(cs[1..], x);
      if x in cs[0] {
      } else if x in Flatten(cs[1..]) {
        var k :| 0 <= k < |cs| - 1 && x in cs[1..][k];
        assert x in cs[k + 1];
      } else {
        forall k | 0 <= k < |cs| ensures x !in cs[k] {
          if k > 0 {
            assert cs[k] == cs[1..][k - 1];
          }
        }
      }
    }
  }

  /** How many of the values are present. */
  function CountSome<T>(xs: seq<Option<T>>): nat {
    if |xs| == 0 then 0 else (if xs[0].Some? then 1 else 0) + CountSome(xs[1..])
  }

  /** The present values, in order. */
  function Somes<T>(xs: seq<Option<T>>): (r: seq<T>)
    ensures |r| == CountSome(xs) <= |xs|
  {
    if |xs| == 0 then []
    else (if xs[0].Some? then [xs[0].value] else []) + Somes(xs[1..])
  }

  /** Order and completeness: a present value sits right after the present
      values before it. */
  lemma {:induction false} SomesAt<T>(xs: seq<Option<T>>, i: nat)
    requires i < |xs| && xs[i].Some?
    ensures CountSome(xs[..i]) < |Somes(xs)| && Somes(xs)[CountSome(xs[..i])] == xs[i].value
  {
    if i == 0 {
      assert xs[..0] == [];
    } else {
      var rest, pre := xs[1..], xs[..i];
      SomesAt(rest, i - 1);
      assert rest[i - 1] == xs[i];
      assert pre[0] == xs[0] && pre[1..] == rest[..i - 1];
    }
  }

  /** Soundness: every value kept was present. */
  lemma {:induction false} SomesSound<T>(xs: seq<Option<T>>)
    ensures forall x | x in Somes(xs) :: Some(x) in xs
  {
    if |xs| > 0 {
      SomesSound(xs[1..]);
      forall x | x in Somes(xs) ensures Some(x) in xs {
        if xs[0] != Some(x) {
          assert x in Somes(xs[1..]);
          assert Some(x) in xs[1..];
        }
      }
    }
  }

  /** A value is kept exactly when it is present. */
  lemma SomesExactly<T>(xs: seq<Option<T>>, x: T)
    ensures x in Somes(xs) <==> Some(x) in xs
  {
    SomesSound(xs);
    if Some(x) in xs {
      var i :| 0 <= i < |xs| && xs[i] == Some(x);
      SomesAt(xs, i);
    }
  }
}
