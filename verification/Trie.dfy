/**
 The router's trie: a mutable 256-way tree whose nodes are overwritten in place.  `Contents` is the map the tree stands
 for; every method is specified by what it does to that map, so nodes left empty by a removal cannot show.
 */
module Trie {
  import opened Bytes

  type Key = seq<byte>

  // ---------------------------------------------------------------- prefixes in a map

  /// `m` has a value for the first `n` bytes of `key`.
  ghost predicate Stored<T>(m: map<Key, T>, key: Key, n: nat) {
    n <= |key| && key[..n] in m
  }

  ghost predicate LongestStored<T>(m: map<Key, T>, key: Key, n: nat) {
    Stored(m, key, n) && forall k: nat :: Stored(m, key, k) ==> k <= n
  }

  /// `v` is the value of the longest stored prefix of `key`, or `otherwise` when no prefix is stored.
  ghost predicate IsPrefixValue<T>(m: map<Key, T>, key: Key, otherwise: Option<T>, v: Option<T>) {
    || (exists n: nat :: LongestStored(m, key, n) && v == Some(m[key[..n]]))
    || ((forall n: nat :: !Stored(m, key, n)) && v == otherwise)
  }

  /// There is always one such value, and only one.
  lemma PrefixValueUnique<T>(m: map<Key, T>, key: Key, otherwise: Option<T>, v: Option<T>, w: Option<T>)
    requires IsPrefixValue(m, key, otherwise, v) && IsPrefixValue(m, key, otherwise, w)
    ensures v == w
  {
    if (exists n: nat :: Stored(m, key, n)) {
      var n: nat :| LongestStored(m, key, n) && v == Some(m[key[..n]]);
      var k: nat :| LongestStored(m, key, k) && w == Some(m[key[..k]]);
      assert n == k;
    }
  }

  ghost function Lookup<T>(m: map<Key, T>, key: Key): Option<T> {
    if key in m then Some(m[key]) else None
  }

  // ---------------------------------------------------------------- one step down

  /// `sub` is what `m` holds below byte `b`.
  ghost predicate Below<T>(m: map<Key, T>, b: byte, sub: map<Key, T>) {
    forall key: Key :: key != [] && key[0] == b ==> Lookup(m, key) == Lookup(sub, key[1..])
  }

  lemma StoredBelow<T>(m: map<Key, T>, key: Key, sub: map<Key, T>, n: nat)
    requires key != [] && Below(m, key[0], sub)
    ensures Stored(sub, key[1..], n) <==> Stored(m, key, n + 1)
  {
    if n < |key| {
      assert key[..n + 1][1..] == key[1..][..n];
      assert Lookup(m, key[..n + 1]) == Lookup(sub, key[1..][..n]);
    }
  }

  /// Where the empty key is not stored, the longest prefix is found one level down.
  lemma PrefixBelow<T>(m: map<Key, T>, key: Key, sub: map<Key, T>, otherwise: Option<T>, v: Option<T>)
    requires key != [] && Below(m, key[0], sub) && [] !in m
    requires IsPrefixValue(sub, key[1..], otherwise, v)
    ensures IsPrefixValue(m, key, otherwise, v)
  {
    forall n: nat
      ensures Stored(sub, key[1..], n) <==> Stored(m, key, n + 1)
      ensures !Stored(m, key, 0)
    {
      StoredBelow(m, key, sub, n);
      assert key[..0] == [];
    }
    if n: nat :| LongestStored(sub, key[1..], n) && v == Some(sub[key[1..][..n]]) {
      assert Stored(m, key, n + 1);
      forall k: nat | Stored(m, key, k) ensures k <= n + 1 {
        assert k > 0 && Stored(sub, key[1..], k - 1);
      }
      assert LongestStored(m, key, n + 1);
      assert key[..n + 1][1..] == key[1..][..n];
      assert Lookup(m, key[..n + 1]) == Lookup(sub, key[1..][..n]);
    } else {
      forall k: nat ensures !Stored(m, key, k) {
        if k > 0 {
          assert !Stored(sub, key[1..], k - 1);
        }
      }
    }
  }

  /// A value at the empty key is what a longer prefix falls back to.
  lemma PrefixHere<T>(m: map<Key, T>, below: map<Key, T>, key: Key, otherwise: Option<T>, v: Option<T>)
    requires [] !in below
    requires forall k: Key :: k != [] ==> Lookup(m, k) == Lookup(below, k)
    requires IsPrefixValue(below, key, if [] in m then Some(m[[]]) else otherwise, v)
    ensures IsPrefixValue(m, key, otherwise, v)
  {
    forall n: nat | n <= |key|
      ensures n > 0 ==> Lookup(m, key[..n]) == Lookup(below, key[..n])
      ensures n == 0 ==> key[..n] == []
    {}
    if n: nat :| LongestStored(below, key, n) && v == Some(below[key[..n]]) {
      assert n > 0;
      assert Stored(m, key, n);
      forall k: nat | Stored(m, key, k) ensures k <= n {
        if k > 0 {
          assert Stored(below, key, k);
        }
      }
      assert LongestStored(m, key, n);
    } else {
      forall k: nat | k > 0 ensures !Stored(m, key, k) {
        assert !Stored(below, key, k);
      }
      if [] in m {
        assert LongestStored(m, key, 0);
      } else {
        forall k: nat ensures !Stored(m, key, k) {}
      }
    }
  }

  lemma UpdateBelow<T>(m: map<Key, T>, key: Key, value: T, b: byte, sub: map<Key, T>)
    requires key != [] && Below(m, b, sub)
    ensures Below(m[key := value], b, if b == key[0] then sub[key[1..] := value] else sub)
  {
    forall k: Key | k != [] && k[0] == b == key[0] && k[1..] == key[1..]
      ensures k == key
    {
      assert k == [b] + k[1..] && key == [b] + key[1..];
    }
  }

  lemma RemoveBelow<T>(m: map<Key, T>, key: Key, b: byte, sub: map<Key, T>)
    requires key != [] && Below(m, b, sub)
    ensures Below(m - {key}, b, if b == key[0] then sub - {key[1..]} else sub)
  {
    forall k: Key | k != [] && k[0] == b == key[0] && k[1..] == key[1..]
      ensures k == key
    {
      assert k == [b] + k[1..] && key == [b] + key[1..];
    }
  }

  // ---------------------------------------------------------------- the tree

  /// The 256 child slots of the root or of a node.
  class Level<T> {
    const slots: array<Node?<T>>
    ghost var Repr: set<object>
    ghost var Contents: map<Key, T>

    /// The children are separate trees of their own.
    ghost predicate Owned()
      reads this, Repr
      decreases Repr, 0
      ensures Owned() ==> this in Repr && slots in Repr && slots.Length == 256
      ensures Owned() ==> forall b :: 0 <= b < 256 && slots[b] != null ==> slots[b] in Repr
    {
      && this in Repr && slots in Repr && slots.Length == 256
      && (forall b :: 0 <= b < 256 && slots[b] != null ==>
            && slots[b] in Repr && slots[b].Repr < Repr
            && this !in slots[b].Repr && slots !in slots[b].Repr
            && slots[b].Valid())
      && (forall b, c :: 0 <= b < c < 256 && slots[b] != null && slots[c] != null ==> slots[b].Repr !! slots[c].Repr)
    }

    /// What is stored below byte `b`.
    ghost function Sub(b: byte): map<Key, T>
      reads this, Repr
      requires Owned()
      decreases Repr, 1
    {
      if slots[b] == null then map[] else slots[b].Contents
    }

    ghost predicate Valid()
      reads this, Repr
      decreases Repr, 2
      ensures Valid() ==> this in Repr
    {
      Owned() && [] !in Contents && forall b: byte :: Below(Contents, b, Sub(b))
    }

    /// Changing nothing but this object's own ghost fields leaves the tree below as it was.
    twostate lemma StaysOwned()
      requires old(Owned()) && Repr == old(Repr) && unchanged(Repr - {this})
      ensures Owned() && forall b: byte :: Sub(b) == old(Sub(b))
    {
      forall b | 0 <= b < 256 && slots[b] != null
        ensures slots[b].Valid() && slots[b].Repr == old(slots[b].Repr)
      {
        assert slots[b] == old(slots[b]) && old(slots[b].Valid());
      }
    }

    constructor ()
      ensures Valid() && fresh(Repr) && Contents == map[]
    {
      slots := new Node?<T>[256](_ => null);
      new;
      Repr := {this, slots};
      Contents := map[];
    }

    method EnsureChild(b: byte)
      requires Valid()
      modifies Repr
      ensures Valid() && fresh(Repr - old(Repr))
      ensures Contents == old(Contents) && slots[b] != null
    {
      if slots[b] == null {
        var node := new Node<T>();
        slots[b] := node;
        Repr := Repr + node.Repr;
        forall c: int | 0 <= c < 256 && slots[c] != null
          ensures slots[c].Valid() && (c != b as int ==> slots[c].Repr !! node.Repr)
        {
          assert c != b as int ==> slots[c] == old(slots[c]);
        }
        assert forall c: byte :: Sub(c) == old(Sub(c));
      }
    }

    /// The child is taken out of its slot, changed, and put back.
    method AddToChild(b: byte, key: Key, value: T)
      requires Owned() && slots[b] != null
      modifies Repr
      ensures Owned() && fresh(Repr - old(Repr)) && Contents == old(Contents)
      ensures Sub(b) == old(Sub(b))[key := value]
      ensures forall c: byte :: c != b ==> Sub(c) == old(Sub(c))
      decreases |key|, 2
    {
      var child := slots[b];
      slots[b] := null;
      label before:
      child.AddValue(key, value);
      forall c | 0 <= c < 256 && slots[c] != null
        ensures slots[c].Repr !! child.Repr && slots[c].Valid()
        ensures slots[c].Repr == old@before(slots[c].Repr) && slots[c].Contents == old@before(slots[c].Contents)
      {
        assert slots[c] == old@before(slots[c]) && old@before(slots[c].Repr !! child.Repr);
      }
      slots[b] := child;
      Repr := Repr + child.Repr;
    }

    /// `add_value_to_children`
    method AddValue(key: Key, value: T)
      requires Valid() && key != []
      modifies Repr
      ensures Valid() && fresh(Repr - old(Repr))
      ensures Contents == old(Contents)[key := value]
      decreases |key|, 0
    {
      EnsureChild(key[0]);
      label before:
      AddToChild(key[0], key[1..], value);
      forall b: byte
        ensures Below(Contents[key := value], b, Sub(b))
      {
        UpdateBelow(Contents, key, value, b, old@before(Sub(b)));
      }
      label added:
      Contents := Contents[key := value];
      StaysOwned@added();
    }

    method MoveFromChild(b: byte, key: Key) returns (r: Option<T>)
      requires Owned() && slots[b] != null
      modifies Repr
      ensures Owned() && fresh(Repr - old(Repr)) && Contents == old(Contents)
      ensures r == Lookup(old(Sub(b)), key)
      ensures Sub(b) == old(Sub(b)) - {key}
      ensures forall c: byte :: c != b ==> Sub(c) == old(Sub(c))
      decreases |key|, 2
    {
      var child := slots[b];
      r := child.MoveValueOut(key);
      Repr := Repr + child.Repr;
    }

    method MoveValueOut(key: Key) returns (r: Option<T>)
      requires Valid() && key != []
      modifies Repr
      ensures Valid() && fresh(Repr - old(Repr))
      ensures r == Lookup(old(Contents), key)
      ensures Contents == old(Contents) - {key}
      decreases |key|, 0
    {
      assert Below(Contents, key[0], Sub(key[0]));
      if slots[key[0]] == null {
        assert Lookup(Contents, key) == None;
        return None;
      }
      label before:
      r := MoveFromChild(key[0], key[1..]);
      forall b: byte
        ensures Below(Contents - {key}, b, Sub(b))
      {
        RemoveBelow(Contents, key, b, old@before(Sub(b)));
      }
      label removed:
      Contents := Contents - {key};
      StaysOwned@removed();
    }

    function GetValue(key: Key): (r: Option<T>)
      reads this, Repr
      requires Valid() && key != []
      ensures r == Lookup(Contents, key)
      decreases |key|, 0
    {
      assert Owned() && Below(Contents, key[0], Sub(key[0]));
      if slots[key[0]] == null then None else slots[key[0]].GetValue(key[1..])
    }

    /// `otherwise` is the value of the longest prefix met on the way down.
    function GetValuePrefix(key: Key, otherwise: Option<T>): (r: Option<T>)
      reads this, Repr
      requires Valid() && key != []
      ensures IsPrefixValue(Contents, key, otherwise, r)
      decreases |key|, 0
    {
      assert Owned() && Below(Contents, key[0], Sub(key[0]));
      if slots[key[0]] == null then
        assert forall n: nat :: !Stored<T>(map[], key[1..], n);
        PrefixBelow(Contents, key, map[], otherwise, otherwise);
        otherwise
      else
        var r := slots[key[0]].GetValuePrefix(key[1..], otherwise);
        PrefixBelow(Contents, key, Sub(key[0]), otherwise, r);
        r
    }
  }

  class Node<T> {
    const children: Level<T>
    var value: Option<T>
    ghost var Repr: set<object>
    ghost var Contents: map<Key, T>

    ghost predicate Valid()
      reads this, Repr
      decreases Repr, 3
      ensures Valid() ==> this in Repr
    {
      && this in Repr && children in Repr && children.Repr < Repr && this !in children.Repr
      && children.Valid()
      && Lookup(Contents, []) == value
      && (forall key: Key :: key != [] ==> Lookup(Contents, key) == Lookup(children.Contents, key))
    }

    constructor ()
      ensures Valid() && fresh(Repr) && Contents == map[]
    {
      children := new Level<T>();
      value := None;
      new;
      Repr := {this} + children.Repr;
      Contents := map[];
    }

    method AddValue(key: Key, value: T)
      requires Valid()
      modifies Repr
      ensures Valid() && fresh(Repr - old(Repr))
      ensures Contents == old(Contents)[key := value]
      decreases |key|, 1
    {
      if key == [] {
        this.value := Some(value);
      } else {
        children.AddValue(key, value);
        Repr := Repr + children.Repr;
      }
      Contents := Contents[key := value];
      forall k: Key | k != []
        ensures Lookup(Contents, k) == Lookup(children.Contents, k)
      {
        assert Lookup(old(Contents), k) == Lookup(old(children.Contents), k);
      }
    }

    method MoveValueOut(key: Key) returns (r: Option<T>)
      requires Valid()
      modifies Repr
      ensures Valid() && fresh(Repr - old(Repr))
      ensures r == Lookup(old(Contents), key)
      ensures Contents == old(Contents) - {key}
      decreases |key|, 1
    {
      if key == [] {
        r := value;
        value := None;
      } else {
        r := children.MoveValueOut(key);
        Repr := Repr + children.Repr;
      }
      Contents := Contents - {key};
      forall k: Key | k != []
        ensures Lookup(Contents, k) == Lookup(children.Contents, k)
      {
        assert Lookup(old(Contents), k) == Lookup(old(children.Contents), k);
      }
    }

    function GetValue(key: Key): (r: Option<T>)
      reads this, Repr
      requires Valid()
      ensures r == Lookup(Contents, key)
      decreases |key|, 1
    {
      if key == [] then value else children.GetValue(key)
    }

    function GetValuePrefix(key: Key, otherwise: Option<T>): (r: Option<T>)
      reads this, Repr
      requires Valid()
      ensures IsPrefixValue(Contents, key, otherwise, r)
      decreases |key|, 1
    {
      if key == [] then
        if value == None then
          assert forall n: nat :: !Stored(Contents, key, n);
          otherwise
        else
          assert LongestStored(Contents, key, 0);
          value
      else
        var next := if value == None then otherwise else value;
        var r := children.GetValuePrefix(key, next);
        PrefixHere(Contents, children.Contents, key, otherwise, r);
        r
    }
  }

  /// The root: it holds no value of its own, so the empty key is never stored.
  class Trie<T> {
    const children: Level<T>
    ghost var Repr: set<object>

    ghost predicate Valid()
      reads this, Repr
      ensures Valid() ==> this in Repr
    {
      this in Repr && children in Repr && children.Repr < Repr && this !in children.Repr && children.Valid()
    }

    /// The map the trie stands for.
    ghost function Contents(): map<Key, T>
      reads this, Repr
      requires Valid()
      ensures [] !in Contents()
    {
      children.Contents
    }

    constructor ()
      ensures Valid() && fresh(Repr) && Contents() == map[]
    {
      children := new Level<T>();
      new;
      Repr := {this} + children.Repr;
    }

    /// `Trie::add_value` asserts that the key is not empty.
    method AddValue(key: Key, value: T)
      requires Valid() && key != []
      modifies Repr
      ensures Valid() && fresh(Repr - old(Repr))
      ensures Contents() == old(Contents())[key := value]
    {
      children.AddValue(key, value);
      Repr := Repr + children.Repr;
    }

    method MoveValueOut(key: Key) returns (r: Option<T>)
      requires Valid()
      modifies Repr
      ensures Valid() && fresh(Repr - old(Repr))
      ensures r == Lookup(old(Contents()), key)
      ensures Contents() == old(Contents()) - {key}
    {
      if key == [] {
        return None;
      }
      r := children.MoveValueOut(key);
      Repr := Repr + children.Repr;
    }

    function GetValue(key: Key): (r: Option<T>)
      reads this, Repr
      requires Valid()
      ensures r == Lookup(Contents(), key)
    {
      if key == [] then None else children.GetValue(key)
    }

    /// The value of the longest stored prefix of `key`, and `None` exactly when no prefix of it is stored.
    function GetValuePrefix(key: Key): (r: Option<T>)
      reads this, Repr
      requires Valid()
      ensures IsPrefixValue(Contents(), key, None, r)
      ensures r == None <==> forall n: nat :: !Stored(Contents(), key, n)
    {
      if key == [] then
        assert forall n: nat :: !Stored(Contents(), key, n);
        None
      else
        children.GetValuePrefix(key, None)
    }
  }
}
