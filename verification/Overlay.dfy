/** Block writes applied in order to the blocks of a volume. */
module Overlay {
  import opened Options

  /** The contents of a disk block: its 64-bit words. */
  type Block = seq<int>

  /** `content` is what log entry `entry` holds for disk block `block`. */
  datatype Write = Write(block: int, content: Block, entry: nat)

  /** The volume after the writes, the later ones on top. */
  function Apply(home: map<int, Block>, writes: seq<Write>): (r: map<int, Block>)
    decreases |writes|
  {
    if writes == [] then home
    else
      var n := |writes| - 1;
      Apply(home, writes[..n])[writes[n].block := writes[n].content]
  }

  /** What the newest write to `block` holds, if there is one. */
  function Latest(writes: seq<Write>, block: int): (r: Option<Block>)
    ensures r.Some? <==> exists i :: 0 <= i < |writes| && writes[i].block == block
    decreases |writes|
  {
    if writes == [] then None
    else
      var n := |writes| - 1;
      if writes[n].block == block then Some(writes[n].content)
      else
        var r := Latest(writes[..n], block);
        assert r.Some? ==> exists i :: 0 <= i < n && writes[..n][i].block == block;
        assert forall i :: 0 <= i < n ==> writes[..n][i] == writes[i];
        r
  }

  /** Reading a block back after the writes. */
  lemma {:induction false} ApplyLookup(home: map<int, Block>, writes: seq<Write>, block: int)
    ensures match Latest(writes, block)
            case Some(c) => block in Apply(home, writes) && Apply(home, writes)[block] == c
            case None => (block in Apply(home, writes) <==> block in home)
                         && (block in home ==> Apply(home, writes)[block] == home[block])
    decreases |writes|
  {
    if writes != [] {
      ApplyLookup(home, writes[..|writes| - 1], block);
    }
  }

  lemma {:induction false} ApplyConcat(home: map<int, Block>, a: seq<Write>, b: seq<Write>)
    ensures Apply(home, a + b) == Apply(Apply(home, a), b)
    decreases |b|
  {
    if b == [] {
      assert a + b == a;
    } else {
      var n := |b| - 1;
      ApplyConcat(home, a, b[..n]);
      assert (a + b)[..|a + b| - 1] == a + b[..n];
    }
  }

  lemma {:induction false} LatestConcat(a: seq<Write>, b: seq<Write>, block: int)
    ensures Latest(a + b, block) == if Latest(b, block).Some? then Latest(b, block) else Latest(a, block)
    decreases |b|
  {
    if b == [] {
      assert a + b == a;
    } else {
      var n := |b| - 1;
      LatestConcat(a, b[..n], block);
      assert (a + b)[..|a + b| - 1] == a + b[..n];
    }
  }

  /** Two volumes agree after the writes if they agree on all blocks not written. */
  lemma {:induction false} ApplyAgree(home: map<int, Block>, home': map<int, Block>, writes: seq<Write>)
    requires forall b {:trigger Latest(writes, b)} :: Latest(writes, b).None? ==>
               (b in home <==> b in home') && (b in home ==> home[b] == home'[b])
    ensures Apply(home, writes) == Apply(home', writes)
  {
    forall b | true
      ensures b in Apply(home, writes) <==> b in Apply(home', writes)
      ensures b in Apply(home, writes) ==> Apply(home, writes)[b] == Apply(home', writes)[b]
    {
      ApplyLookup(home, writes, b);
      ApplyLookup(home', writes, b);
      assert Latest(writes, b).None? || Latest(writes, b).Some?;
    }
  }

  /** Repeating the first writes before all of them changes nothing. */
  lemma {:induction false} ApplyPrefixAgain(home: map<int, Block>, writes: seq<Write>, k: nat)
    requires k <= |writes|
    ensures Apply(Apply(home, writes[..k]), writes) == Apply(home, writes)
  {
    var home' := Apply(home, writes[..k]);
    forall b {:trigger Latest(writes, b)} | Latest(writes, b).None?
      ensures (b in home <==> b in home') && (b in home ==> home[b] == home'[b])
    {
      assert writes == writes[..k] + writes[k..];
      LatestConcat(writes[..k], writes[k..], b);
      ApplyLookup(home, writes[..k], b);
    }
    ApplyAgree(home, home', writes);
  }

  /** Writing a block early is allowed when no earlier write touches it. */
  lemma {:induction false} ApplyEarly(home: map<int, Block>, writes: seq<Write>, i: nat)
    requires i < |writes|
    requires forall j :: 0 <= j < i ==> writes[j].block != writes[i].block
    ensures Apply(home[writes[i].block := writes[i].content], writes[..i] + writes[i + 1..])
         == Apply(home, writes)
  {
    var w := writes[i];
    var before, after := writes[..i], writes[i + 1..];
    assert writes == before + [w] + after;
    ApplyConcat(home, before + [w], after);
    ApplyConcat(home[w.block := w.content], before, after);
    ApplyConcat(home, before, [w]);
    assert Apply(Apply(home, before), [w]) == Apply(home, before)[w.block := w.content] by {
      assert [w][..0] == [];
    }
    assert Apply(home[w.block := w.content], before) == Apply(home, before)[w.block := w.content] by {
      var x, y := Apply(home[w.block := w.content], before), Apply(home, before)[w.block := w.content];
      forall b | true
        ensures b in x <==> b in y
        ensures b in x ==> x[b] == y[b]
      {
        ApplyLookup(home[w.block := w.content], before, b);
        ApplyLookup(home, before, b);
        assert Latest(before, b).None? || Latest(before, b).Some?;
      }
    }
  }
}
