/** Subsequences: lists obtained by leaving elements out. */
module Subsequence {

  ghost predicate Subseq<T>(xs: seq<T>, ys: seq<T>)
    decreases |ys|
  {
    xs == [] ||
    (ys != [] && ((xs[|xs| - 1] == ys[|ys| - 1] && Subseq(xs[..|xs| - 1], ys[..|ys| - 1]))
                  || Subseq(xs, ys[..|ys| - 1])))
  }

  lemma {:induction false} SubseqSame<T>(xs: seq<T>)
    ensures Subseq(xs, xs)
  {
    if xs != [] {
      SubseqSame(xs[..|xs| - 1]);
    }
  }

  lemma SubseqEmpty<T>(ys: seq<T>)
    ensures Subseq([], ys)
  {
  }

  lemma SubseqSkip<T>(xs: seq<T>, ys: seq<T>, y: T)
    requires Subseq(xs, ys)
    ensures Subseq(xs, ys + [y])
  {
    assert (ys + [y])[..|ys|] == ys;
  }

  lemma SubseqTake<T>(xs: seq<T>, ys: seq<T>, y: T)
    requires Subseq(xs, ys)
    ensures Subseq(xs + [y], ys + [y])
  {
    assert (ys + [y])[..|ys|] == ys && (xs + [y])[..|xs|] == xs;
  }

  lemma {:induction false} SubseqAppend<T>(xs: seq<T>, ys: seq<T>, zs: seq<T>)
    requires Subseq(xs, ys)
    ensures Subseq(xs + zs, ys + zs)
    decreases |zs|
  {
    if zs == [] {
      assert xs + zs == xs && ys + zs == ys;
    } else {
      var front, last := zs[..|zs| - 1], zs[|zs| - 1];
      SubseqAppend(xs, ys, front);
      SubseqTake(xs + front, ys + front, last);
      assert xs + zs == (xs + front) + [last] && ys + zs == (ys + front) + [last];
    }
  }

  lemma {:induction false} SubseqTransitive<T>(xs: seq<T>, ys: seq<T>, zs: seq<T>)
    requires Subseq(xs, ys) && Subseq(ys, zs)
    ensures Subseq(xs, zs)
    decreases |zs|
  {
    if xs != [] && ys != [] && zs != [] {
      var ys', zs' := ys[..|ys| - 1], zs[..|zs| - 1];
      if ys[|ys| - 1] == zs[|zs| - 1] && Subseq(ys', zs') {
        if xs[|xs| - 1] == ys[|ys| - 1] && Subseq(xs[..|xs| - 1], ys') {
          SubseqTransitive(xs[..|xs| - 1], ys', zs');
        } else {
          SubseqTransitive(xs, ys', zs');
        }
      } else {
        SubseqTransitive(xs, ys, zs');
      }
    }
  }

  lemma {:induction false} SubseqSuffix<T>(xs: seq<T>, k: nat)
    requires k <= |xs|
    ensures Subseq(xs[k..], xs)
  {
    if k < |xs| {
      var front := xs[..|xs| - 1];
      SubseqSuffix(front, k);
      assert xs[k..][..|xs| - k - 1] == front[k..];
    }
  }

  lemma {:induction false} SubseqMembers<T>(xs: seq<T>, ys: seq<T>)
    requires Subseq(xs, ys)
    ensures forall k :: 0 <= k < |xs| ==> xs[k] in ys
    decreases |ys|
  {
    if xs != [] {
      var ys' := ys[..|ys| - 1];
      assert ys == ys' + [ys[|ys| - 1]];
      if xs[|xs| - 1] == ys[|ys| - 1] && Subseq(xs[..|xs| - 1], ys') {
        SubseqMembers(xs[..|xs| - 1], ys');
      } else {
        SubseqMembers(xs, ys');
      }
    }
  }

  /** What comes before an element, if it is kept, is kept before it. */
  lemma {:induction false} SubseqOrder<T>(xs: seq<T>, ys: seq<T>, p: nat, q: nat, k: nat)
    requires Subseq(xs, ys) && forall i, j :: 0 <= i < j < |ys| ==> ys[i] != ys[j]
    requires p < q < |ys| && k < |xs| && xs[k] == ys[q]
    ensures ys[p] in xs ==> ys[p] in xs[..k]
    decreases |ys|
  {
    var ys' := ys[..|ys| - 1];
    if xs[|xs| - 1] == ys[|ys| - 1] && Subseq(xs[..|xs| - 1], ys') {
      var xs' := xs[..|xs| - 1];
      assert xs == xs' + [ys[|ys| - 1]];
      if k < |xs'| {
        SubseqMembers(xs', ys');
        assert xs'[k] in ys' && q < |ys'|;
        SubseqOrder(xs', ys', p, q, k);
        assert xs'[..k] == xs[..k];
      }
    } else {
      SubseqMembers(xs, ys');
      assert xs[k] in ys' && q < |ys'|;
      SubseqOrder(xs, ys', p, q, k);
    }
  }
}
