/** Which Bitcoin transactions count: transfers from one P2WPKH address to itself. */
module SelfTransfer {
  import opened Wrappers

  datatype Output = Output(scriptType: string, addresses: seq<string>, address: string)
  /** Inputs are given by their resolved address, empty when it is unknown. */
  datatype Transaction = Transaction(txid: string, inputs: seq<string>, outputs: seq<Output>)

  function LowerChar(c: char): char {
    if 'A' <= c <= 'Z' then c - 'A' + 'a' else c
  }

  function ToLower(s: string): (r: string)
    ensures |r| == |s| && forall i :: 0 <= i < |s| ==> r[i] == LowerChar(s[i])
  {
    seq(|s|, i requires 0 <= i < |s| => LowerChar(s[i]))
  }

  function AddressesOf(o: Output): seq<string> {
    if |o.addresses| > 0 then o.addresses else if o.address != "" then [o.address] else []
  }

  predicate IsKeyHash(o: Output) {
    ToLower(o.scriptType) == "witness_v0_keyhash"
  }

  /** One address is on every side of the transaction, and it is a native SegWit one. */
  predicate TransfersToItself(tx: Transaction, a: string) {
    && tx.inputs != [] && a != "" && "bc1q" <= ToLower(a)
    && (forall i :: 0 <= i < |tx.inputs| ==> tx.inputs[i] == a)
    && (forall i :: 0 <= i < |tx.outputs| ==> IsKeyHash(tx.outputs[i]))
    && (forall i, x :: 0 <= i < |tx.outputs| && x in AddressesOf(tx.outputs[i]) ==> x == a)
    && (exists i :: 0 <= i < |tx.outputs| && AddressesOf(tx.outputs[i]) != [])
  }

  function SelfTransferAddress(tx: Transaction): Option<string> {
    if tx.inputs != [] && TransfersToItself(tx, tx.inputs[0]) then Some(tx.inputs[0]) else None
  }

  /** All addresses a list of outputs names. */
  ghost function Named(outputs: seq<Output>): set<string> {
    set i, x | 0 <= i < |outputs| && x in AddressesOf(outputs[i]) :: x
  }

  /** The check as written: collect the addresses on both sides and insist on exactly one. */
  method IsValidDNNTransaction(tx: Transaction) returns (r: Option<string>)
    ensures r == SelfTransferAddress(tx)
    ensures forall a :: r == Some(a) <==> TransfersToItself(tx, a)
  {
    if |tx.inputs| == 0 || |tx.outputs| == 0 {
      return None;
    }
    var inputAddresses: set<string> := {};
    for i := 0 to |tx.inputs|
      invariant inputAddresses == set k | 0 <= k < i :: tx.inputs[k]
      invariant "" !in inputAddresses
    {
      if tx.inputs[i] == "" {
        return None;
      }
      inputAddresses := inputAddresses + {tx.inputs[i]};
    }
    assert tx.inputs[0] in inputAddresses;
    var outputAddresses: set<string> := {};
    for i := 0 to |tx.outputs|
      invariant forall k :: 0 <= k < i ==> IsKeyHash(tx.outputs[k])
      invariant outputAddresses == Named(tx.outputs[..i])
    {
      var output := tx.outputs[i];
      if ToLower(output.scriptType) != "witness_v0_keyhash" {
        assert !IsKeyHash(tx.outputs[i]);
        return None;
      }
      NamedOneMore(tx.outputs, i);
      if |output.addresses| > 0 {
        outputAddresses := outputAddresses + set x | x in output.addresses;
      } else if output.address != "" {
        outputAddresses := outputAddresses + {output.address};
      }
    }
    assert tx.outputs[..|tx.outputs|] == tx.outputs;
    var allAddresses := inputAddresses + outputAddresses;
    if |allAddresses| != 1 {
      OneAddressMeansOne(tx, inputAddresses, allAddresses);
      return None;
    }
    if |outputAddresses| == 0 {
      NoOutputAddress(tx);
      return None;
    }
    var address :| address in outputAddresses;
    SingletonIs(allAddresses, address, tx.inputs[0]);
    AllTheSame(tx, inputAddresses, address);
    if !("bc1q" <= ToLower(address)) {
      return None;
    }
    return Some(address);
  }

  lemma NamedOneMore(outputs: seq<Output>, i: nat)
    requires i < |outputs|
    ensures Named(outputs[..i + 1]) == Named(outputs[..i]) + set x | x in AddressesOf(outputs[i])
  {
    var a, b := outputs[..i], outputs[..i + 1];
    assert forall k :: 0 <= k < i ==> a[k] == b[k];
    assert b[i] == outputs[i];
  }

  lemma SingletonIs(s: set<string>, x: string, y: string)
    requires |s| == 1 && x in s && y in s
    ensures x == y && s == {x}
  {
    assert |s - {x}| == 0;
    assert s <= {x} + (s - {x});
  }

  lemma OneAddressMeansOne(tx: Transaction, inputs: set<string>, all: set<string>)
    requires tx.inputs != [] && inputs == (set k | 0 <= k < |tx.inputs| :: tx.inputs[k])
    requires all == inputs + Named(tx.outputs) && |all| != 1
    ensures forall a :: !TransfersToItself(tx, a)
  {
    forall a ensures !TransfersToItself(tx, a) {
      if TransfersToItself(tx, a) {
        OnlyAddress(tx, inputs, all, a);
      }
    }
  }

  lemma OnlyAddress(tx: Transaction, inputs: set<string>, all: set<string>, a: string)
    requires tx.inputs != [] && inputs == (set k | 0 <= k < |tx.inputs| :: tx.inputs[k])
    requires all == inputs + Named(tx.outputs) && TransfersToItself(tx, a)
    ensures all == {a}
  {
    assert tx.inputs[0] in inputs;
  }

  lemma NoOutputAddress(tx: Transaction)
    requires Named(tx.outputs) == {}
    ensures forall a :: !TransfersToItself(tx, a)
  {
    forall i | 0 <= i < |tx.outputs| ensures AddressesOf(tx.outputs[i]) == [] {
      if AddressesOf(tx.outputs[i]) != [] {
        FirstAddressIsNamed(tx, i);
      }
    }
  }

  lemma FirstAddressIsNamed(tx: Transaction, i: nat)
    requires i < |tx.outputs| && AddressesOf(tx.outputs[i]) != []
    ensures AddressesOf(tx.outputs[i])[0] in Named(tx.outputs)
  {
    var x := AddressesOf(tx.outputs[i])[0];
    assert x in AddressesOf(tx.outputs[i]);
  }

  lemma AllTheSame(tx: Transaction, inputs: set<string>, a: string)
    requires tx.inputs != [] && inputs == (set k | 0 <= k < |tx.inputs| :: tx.inputs[k])
    requires inputs + Named(tx.outputs) == {a} && a in Named(tx.outputs) && "" !in inputs
    requires forall i :: 0 <= i < |tx.outputs| ==> IsKeyHash(tx.outputs[i])
    ensures tx.inputs[0] == a
    ensures forall b :: TransfersToItself(tx, b) <==> b == a && "bc1q" <= ToLower(a)
  {
    forall k | 0 <= k < |tx.inputs| ensures tx.inputs[k] == a {
      assert tx.inputs[k] in inputs;
    }
    forall i, x | 0 <= i < |tx.outputs| && x in AddressesOf(tx.outputs[i]) ensures x == a {
      assert x in Named(tx.outputs);
    }
  }

  // ----- acceptance, from the set of all addresses -----

  /** `s` is `t`, a text without capitals, up to capital letters. */
  predicate Spells(s: string, t: string) {
    |s| == |t| && forall k :: 0 <= k < |s| ==> s[k] == t[k] || ('a' <= t[k] <= 'z' && s[k] as int == t[k] as int - 32)
  }

  predicate NoCapitals(t: string) {
    forall k :: 0 <= k < |t| ==> !('A' <= t[k] <= 'Z')
  }

  lemma LoweredExactlyWhenSpells(s: string, t: string)
    requires NoCapitals(t)
    ensures ToLower(s) == t <==> Spells(s, t)
  {
    if ToLower(s) == t {
      forall k | 0 <= k < |s| ensures s[k] == t[k] || ('a' <= t[k] <= 'z' && s[k] as int == t[k] as int - 32) {
        assert LowerChar(s[k]) == t[k];
      }
    }
  }

  lemma LoweredPrefix(s: string, t: string)
    requires NoCapitals(t)
    ensures t <= ToLower(s) <==> |t| <= |s| && Spells(s[..|t|], t)
  {
    if |t| <= |s| {
      LoweredExactlyWhenSpells(s[..|t|], t);
      assert ToLower(s[..|t|]) == ToLower(s)[..|t|];
    }
  }

  ghost function OutputAddresses(tx: Transaction): set<string> {
    (set i, x | 0 <= i < |tx.outputs| && x in tx.outputs[i].addresses :: x)
    + (set i | 0 <= i < |tx.outputs| && tx.outputs[i].addresses == [] && tx.outputs[i].address != "" :: tx.outputs[i].address)
  }

  ghost function InputAddresses(tx: Transaction): set<string> {
    set i | 0 <= i < |tx.inputs| :: tx.inputs[i]
  }

  lemma NamedAreOutputAddresses(tx: Transaction)
    ensures Named(tx.outputs) == OutputAddresses(tx)
  {
    forall x ensures x in Named(tx.outputs) <==> x in OutputAddresses(tx) {
      if x in Named(tx.outputs) {
        var i :| 0 <= i < |tx.outputs| && x in AddressesOf(tx.outputs[i]);
      }
      if i :| 0 <= i < |tx.outputs| && x in tx.outputs[i].addresses {
        assert x in AddressesOf(tx.outputs[i]);
      }
      if i :| 0 <= i < |tx.outputs| && tx.outputs[i].addresses == [] && tx.outputs[i].address != "" && tx.outputs[i].address == x {
        assert x in AddressesOf(tx.outputs[i]);
      }
    }
  }

  /** A transaction counts for an address exactly when the outputs name that address and no
      other, the inputs name nothing else, every output is a key-hash output and the address
      starts with bc1q, capital letters allowed in both. */
  lemma AcceptedExactly(tx: Transaction, a: string)
    ensures SelfTransferAddress(tx) == Some(a)
       <==> && tx.inputs != [] && a != "" && InputAddresses(tx) == {a} && OutputAddresses(tx) == {a}
            && (forall i :: 0 <= i < |tx.outputs| ==> Spells(tx.outputs[i].scriptType, "witness_v0_keyhash"))
            && |a| >= 4 && Spells(a[..4], "bc1q")
  {
    hide ToLower, Spells;
    LoweredPrefix(a, "bc1q");
    NamedAreOutputAddresses(tx);
    forall i | 0 <= i < |tx.outputs|
      ensures IsKeyHash(tx.outputs[i]) <==> Spells(tx.outputs[i].scriptType, "witness_v0_keyhash")
    {
      LoweredExactlyWhenSpells(tx.outputs[i].scriptType, "witness_v0_keyhash");
    }
    if SelfTransferAddress(tx) == Some(a) {
      assert tx.inputs[0] == a && a in InputAddresses(tx);
      var i :| 0 <= i < |tx.outputs| && AddressesOf(tx.outputs[i]) != [];
      FirstAddressIsNamed(tx, i);
    }
    if tx.inputs != [] && InputAddresses(tx) == {a} && OutputAddresses(tx) == {a} {
      OnlyAddressEverywhere(tx, a);
    }
  }

  lemma OnlyAddressEverywhere(tx: Transaction, a: string)
    requires tx.inputs != [] && InputAddresses(tx) == {a} && Named(tx.outputs) == {a}
    ensures forall i :: 0 <= i < |tx.inputs| ==> tx.inputs[i] == a
    ensures forall i, x :: 0 <= i < |tx.outputs| && x in AddressesOf(tx.outputs[i]) ==> x == a
    ensures exists i :: 0 <= i < |tx.outputs| && AddressesOf(tx.outputs[i]) != []
  {
    forall i | 0 <= i < |tx.inputs| ensures tx.inputs[i] == a {
      assert tx.inputs[i] in InputAddresses(tx);
    }
    forall i, x | 0 <= i < |tx.outputs| && x in AddressesOf(tx.outputs[i]) ensures x == a {
      assert x in Named(tx.outputs);
    }
    assert a in Named(tx.outputs);
  }
}
