/** Lemmas on the multiset of blocks that a tree and its pool own together. */
module BmTreeBlocks {
  import opened BmTreeModel

  lemma {:induction false} BagMember(levels: seq<seq<Address>>, k: nat, a: Address)
    requires k < |levels| && a in levels[k]
    ensures a in Bag(levels)
  {
    if k > 0 {
      BagMember(levels[1..], k - 1, a);
    }
  }

  lemma AddFirst(first: multiset<Address>, a: multiset<Address>, b: multiset<Address>,
                 a': multiset<Address>, b': multiset<Address>)
    requires a + b == a' + b'
    ensures (first + a) + b == (first + a') + b'
  {
    assert (first + a) + b == first + (a + b);
  }

  lemma Cancel(a: multiset<Address>, b: multiset<Address>, row: multiset<Address>, x: multiset<Address>)
    requires a + row == b + (row + x)
    ensures a == b + x
  {
    forall y ensures a[y] == (b + x)[y] {
      assert (a + row)[y] == a[y] + row[y];
      assert (b + (row + x))[y] == b[y] + row[y] + x[y];
    }
    assert a == b + x;
  }

  lemma {:induction false} BagUpdate(levels: seq<seq<Address>>, l: nat, row: seq<Address>)
    requires l < |levels|
    ensures Bag(levels[l := row]) + multiset(levels[l]) == Bag(levels) + multiset(row)
  {
    if l == 0 {
      assert levels[0 := row][1..] == levels[1..];
    } else {
      BagUpdate(levels[1..], l - 1, row);
      assert levels[l := row][1..] == levels[1..][l - 1 := row];
      AddFirst(multiset(levels[0]), Bag(levels[l := row][1..]), multiset(levels[l]), Bag(levels[1..]), multiset(row));
    }
  }

  lemma {:induction false} BagAppend(levels: seq<seq<Address>>, row: seq<Address>)
    ensures Bag(levels + [row]) == Bag(levels) + multiset(row)
  {
    if levels == [] {
      assert ([row])[1..] == [];
    } else {
      BagAppend(levels[1..], row);
      assert (levels + [row])[1..] == levels[1..] + [row];
    }
  }

  lemma PrefixPush(a: seq<Address>, b: seq<Address>, x: Address)
    requires a <= b
    ensures a <= b + [x]
  {}

  lemma InsertBag<T>(s: seq<T>, i: nat, x: T)
    requires i <= |s|
    ensures multiset(InsertAt(s, i, x)) == multiset(s) + multiset{x}
  {
    assert s == s[..i] + s[i..];
  }

  lemma RemoveBag<T>(s: seq<T>, i: nat)
    requires i < |s|
    ensures multiset(RemoveAt(s, i)) + multiset{s[i]} == multiset(s)
  {
    assert s == s[..i] + [s[i]] + s[i + 1..];
  }

  /** The block on top of the pool is in no level. */
  lemma TopIsFree(pool: seq<Address>, levels: seq<seq<Address>>)
    requires BlocksOk(Blocks(pool, levels)) && pool != []
    ensures pool[|pool| - 1] != 0
    ensures forall k, x :: 0 <= k < |levels| && 0 <= x < |levels[k]| ==> levels[k][x] != pool[|pool| - 1]
  {
    var a := pool[|pool| - 1];
    assert a in multiset(pool);
    assert a in Blocks(pool, levels);
    forall k, x | 0 <= k < |levels| && 0 <= x < |levels[k]| ensures levels[k][x] != a {
      if levels[k][x] == a {
        BagMember(levels, k, a);
        assert false;
      }
    }
  }

  /** Moving the top of the pool into a row keeps the blocks. */
  lemma TakeIntoRow(pool: seq<Address>, levels: seq<seq<Address>>, l: nat, p: nat)
    requires pool != [] && l < |levels| && p <= |levels[l]|
    ensures var a := pool[|pool| - 1];
            Blocks(pool[..|pool| - 1], levels[l := InsertAt(levels[l], p, a)]) == Blocks(pool, levels)
  {
    var a := pool[|pool| - 1];
    assert pool == pool[..|pool| - 1] + [a];
    InsertBag(levels[l], p, a);
    var levels' := levels[l := InsertAt(levels[l], p, a)];
    BagUpdate(levels, l, InsertAt(levels[l], p, a));
    Cancel(Bag(levels'), Bag(levels), multiset(levels[l]), multiset{a});
  }

  /** Moving the top of the pool into a row of its own keeps the blocks. */
  lemma TakeAsRow(pool: seq<Address>, levels: seq<seq<Address>>)
    requires pool != []
    ensures Blocks(pool[..|pool| - 1], levels + [[pool[|pool| - 1]]]) == Blocks(pool, levels)
  {
    assert pool == pool[..|pool| - 1] + [pool[|pool| - 1]];
    BagAppend(levels, [pool[|pool| - 1]]);
  }

  /** A node that leaves its row is one block less; giving it to the pool makes up for it. */
  lemma LeaveRow(pool: seq<Address>, levels: seq<seq<Address>>, l: nat, p: nat)
    requires l < |levels| && p < |levels[l]|
    ensures Blocks(pool, levels[l := RemoveAt(levels[l], p)]) + multiset{levels[l][p]} == Blocks(pool, levels)
  {
    RemoveBag(levels[l], p);
    var row := RemoveAt(levels[l], p);
    BagUpdate(levels, l, row);
    Cancel(Bag(levels), Bag(levels[l := row]), multiset(row), multiset{levels[l][p]});
  }

  /** The same for the top row of a single node. */
  lemma DropTop(pool: seq<Address>, levels: seq<seq<Address>>, a: Address)
    requires levels != [] && levels[|levels| - 1] == [a]
    ensures Blocks(pool + [a], levels[..|levels| - 1]) == Blocks(pool, levels)
  {
    assert levels == levels[..|levels| - 1] + [[a]];
    BagAppend(levels[..|levels| - 1], [a]);
  }

  lemma {:induction false} BagTwice(levels: seq<seq<Address>>, k: nat, l: nat, a: Address)
    requires k < l < |levels| && a in levels[k] && a in levels[l]
    ensures Bag(levels)[a] >= 2
  {
    if k == 0 {
      BagMember(levels[1..], l - 1, a);
      assert a in multiset(levels[0]);
    } else {
      BagTwice(levels[1..], k - 1, l - 1, a);
    }
  }

  /** Nodes of different levels are different blocks. */
  lemma RowsApart(pool: seq<Address>, levels: seq<seq<Address>>, l: nat, p: nat)
    requires BlocksOk(Blocks(pool, levels)) && l < |levels| && p < |levels[l]|
    ensures forall k :: 0 <= k < |levels| && k != l ==> levels[l][p] !in levels[k]
  {
    var a := levels[l][p];
    forall k | 0 <= k < |levels| && k != l ensures a !in levels[k] {
      if a in levels[k] {
        assert Blocks(pool, levels)[a] == multiset(pool)[a] + Bag(levels)[a];
        if k < l { BagTwice(levels, k, l, a); } else { BagTwice(levels, l, k, a); }
        assert false;
      }
    }
  }

  /** A change confined to the nodes of one row is not seen by the other rows. */
  lemma OtherRowsSame(pool: seq<Address>, levels: seq<seq<Address>>, d: Disk, d': Disk, l: nat)
    requires BlocksOk(Blocks(pool, levels)) && l < |levels|
    requires forall a :: a in d && a !in levels[l] ==> a in d' && d'[a] == d[a]
    ensures forall k :: 0 <= k < |levels| && k != l ==> SameRow(d, d', levels[k])
  {
    forall k: nat | k < |levels| && k != l ensures SameRow(d, d', levels[k]) {
      var row := levels[k];
      forall x: nat | x < |row| && row[x] in d ensures row[x] in d' && d'[row[x]] == d[row[x]] {
        RowsApart(pool, levels, k, x);
        var a := row[x];
        assert a !in levels[l];
        assert a in d && a !in levels[l] ==> a in d' && d'[a] == d[a];
      }
    }
  }
}
