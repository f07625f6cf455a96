/** Words addressed by 16-bit numbers that wrap around: what every device in the repository stores. */
module RegisterMap {
  import opened Bytes

  function At(address: uint16, i: nat): uint16 {
    Wrap16(address + i)
  }

  function Lookup(words: map<uint16, uint16>, a: uint16): uint16 {
    if a in words then words[a] else 0
  }

  function Load(words: map<uint16, uint16>, address: uint16, n: nat): (r: seq<uint16>)
    ensures |r| == n
  {
    seq(n, i requires 0 <= i < n => Lookup(words, At(address, i)))
  }

  /** Values stored one after the other, first to last. */
  function Store(words: map<uint16, uint16>, address: uint16, values: seq<uint16>): map<uint16, uint16> {
    if values == [] then words
    else
      var n := |values| - 1;
      Store(words, address, values[..n])[At(address, n) := values[n]]
  }

  /** The step of every storing loop: one more value. */
  lemma StoreOneMore(words: map<uint16, uint16>, address: uint16, values: seq<uint16>, i: nat)
    requires i < |values|
    ensures Store(words, address, values[..i + 1]) == Store(words, address, values[..i])[At(address, i) := values[i]]
  {
    var longer := values[..i + 1];
    assert longer[..|longer| - 1] == values[..i];
  }

  lemma AtInjective(address: uint16, i: nat, j: nat)
    requires i < 0x1_0000 && j < 0x1_0000
    ensures At(address, i) == At(address, j) <==> i == j
  {
  }

  lemma {:induction false} StoredAt(words: map<uint16, uint16>, address: uint16, values: seq<uint16>, i: nat)
    requires i < |values| <= 0x1_0000
    ensures At(address, i) in Store(words, address, values)
    ensures Store(words, address, values)[At(address, i)] == values[i]
  {
    var n := |values| - 1;
    if i < n {
      StoredAt(words, address, values[..n], i);
      AtInjective(address, i, n);
    }
  }

  lemma {:induction false} NotStoredAt(words: map<uint16, uint16>, address: uint16, values: seq<uint16>, a: uint16)
    requires forall i :: 0 <= i < |values| ==> At(address, i) != a
    ensures a in Store(words, address, values) <==> a in words
    ensures a in words ==> Store(words, address, values)[a] == words[a]
  {
    if values != [] {
      NotStoredAt(words, address, values[..|values| - 1], a);
    }
  }

  /** `after` is `before` with these words in a row from register a on, and with register 0 after 65535. */
  ghost predicate Holds(before: map<uint16, uint16>, after: map<uint16, uint16>, a: uint16, values: seq<uint16>) {
    forall r: uint16 ::
      var k := (r as int - a as int) % 0x1_0000;
      if k < |values| then r in after && after[r] == values[k]
      else (r in after <==> r in before) && (r in before ==> after[r] == before[r])
  }

  lemma StoreHolds(words: map<uint16, uint16>, address: uint16, values: seq<uint16>)
    requires |values| <= 0x1_0000
    ensures Holds(words, Store(words, address, values), address, values)
  {
    hide Store;
    forall r: uint16
      ensures var after := Store(words, address, values);
              var k := (r as int - address as int) % 0x1_0000;
              if k < |values| then r in after && after[r] == values[k]
              else (r in after <==> r in words) && (r in words ==> after[r] == words[r])
    {
      var k := (r as int - address as int) % 0x1_0000;
      assert At(address, k) == r;
      if k < |values| {
        StoredAt(words, address, values, k);
      } else {
        forall i | 0 <= i < |values| ensures At(address, i) != r {
          AtInjective(address, i, k);
        }
        NotStoredAt(words, address, values, r);
      }
    }
  }

  /** A register that was never written reads as 0. */
  lemma LoadShows(words: map<uint16, uint16>, address: uint16, n: nat, i: nat)
    requires i < n
    ensures var r: uint16 := (address as int + i) % 0x1_0000;
            Load(words, address, n)[i] == if r in words then words[r] else 0
  {
  }

  /** Reading a block back right after writing it. */
  lemma LoadAfterStore(words: map<uint16, uint16>, address: uint16, values: seq<uint16>)
    requires |values| <= 0x1_0000
    ensures Load(Store(words, address, values), address, |values|) == values
  {
    forall i | 0 <= i < |values|
      ensures Lookup(Store(words, address, values), At(address, i)) == values[i]
    {
      StoredAt(words, address, values, i);
    }
  }

  /** Writing the same block twice is writing it once. */
  lemma StoreTwice(words: map<uint16, uint16>, address: uint16, values: seq<uint16>)
    requires |values| <= 0x1_0000
    ensures Store(Store(words, address, values), address, values) == Store(words, address, values)
  {
    var once := Store(words, address, values);
    var twice := Store(once, address, values);
    forall a: uint16 ensures (a in twice <==> a in once) && (a in once ==> twice[a] == once[a]) {
      if i :| 0 <= i < |values| && At(address, i) == a {
        StoredAt(words, address, values, i);
        StoredAt(once, address, values, i);
      } else {
        NotStoredAt(once, address, values, a);
      }
    }
  }
}
