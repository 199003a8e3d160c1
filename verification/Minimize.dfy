/** The input minimiser: runs of bytes are dropped, then bytes simplified,
    until neither changes anything. */
module Minimize {
  import opened Wrappers

  /** Whether an input still fails; a deterministic campaign. */
  type Oracle = seq<Byte> -> bool

  /** data without the run of chunk bytes at i (which may be cut short). */
  function Drop(data: seq<Byte>, i: nat, chunk: nat): (r: seq<Byte>)
    requires i <= |data|
    ensures |r| == if i + chunk < |data| then |data| - chunk else i
  {
    data[..i] + if i + chunk < |data| then data[i + chunk..] else []
  }

  /** How far a byte is from the easiest one to read. */
  function Rank(b: Byte): nat {
    if b == 0x00 then 0 else if b == 0x41 then 1 else 2
  }

  function Ranks(data: seq<Byte>): nat {
    if data == [] then 0 else Rank(data[0]) + Ranks(data[1..])
  }

  lemma {:induction false} RanksUpdate(data: seq<Byte>, i: nat, b: Byte)
    requires i < |data|
    ensures Ranks(data[i := b]) == Ranks(data) - Rank(data[i]) + Rank(b)
    decreases |data|
  {
    if i == 0 {
      assert data[i := b][1..] == data[1..];
    } else {
      RanksUpdate(data[1..], i - 1, b);
      assert data[i := b][1..] == data[1..][i - 1 := b];
    }
  }

  // ---- What the output owes to the input -----------------------------------

  /** r is data with bytes dropped and some of the rest replaced by 0x00 or
      0x41; at gives the place in data of each byte of r. */
  ghost predicate DerivedAt(r: seq<Byte>, data: seq<Byte>, at: seq<nat>) {
    && |at| == |r|
    && (forall k | 0 <= k < |r| :: at[k] < |data| && (r[k] == data[at[k]] || r[k] == 0x00 || r[k] == 0x41))
    && forall j, k | 0 <= j < k < |r| :: at[j] < at[k]
  }

  ghost predicate Derived(r: seq<Byte>, data: seq<Byte>) {
    exists at :: DerivedAt(r, data, at)
  }

  lemma DerivedSelf(data: seq<Byte>)
    ensures Derived(data, data)
  {
    assert DerivedAt(data, data, seq(|data|, i => i));
  }

  lemma DerivedTrans(r: seq<Byte>, mid: seq<Byte>, data: seq<Byte>)
    requires Derived(r, mid) && Derived(mid, data)
    ensures Derived(r, data)
  {
    var a :| DerivedAt(r, mid, a);
    var b :| DerivedAt(mid, data, b);
    assert DerivedAt(r, data, seq(|a|, k requires 0 <= k < |a| => b[a[k]]));
  }

  lemma DropDerived(data: seq<Byte>, i: nat, chunk: nat)
    requires i <= |data|
    ensures Derived(Drop(data, i, chunk), data)
  {
    var r := Drop(data, i, chunk);
    assert DerivedAt(r, data, seq(|r|, k requires 0 <= k < |r| => if k < i then k else k + chunk));
  }

  lemma ReplaceDerived(data: seq<Byte>, i: nat, b: Byte)
    requires i < |data| && (b == 0x00 || b == 0x41)
    ensures Derived(data[i := b], data)
  {
    assert DerivedAt(data[i := b], data, seq(|data|, k => k));
  }

  // ---- Dropping ------------------------------------------------------------

  /** No single byte below limit can be dropped. */
  ghost predicate NoDropBelow(data: seq<Byte>, fails: Oracle, limit: int) {
    forall i: nat | i < limit && i < |data| :: !fails(Drop(data, i, 1))
  }

  /** at gives the places in data of the bytes of s, in order. */
  ghost predicate PickedAt(s: seq<Byte>, data: seq<Byte>, at: seq<nat>) {
    && |at| == |s| && (forall k | 0 <= k < |s| :: at[k] < |data| && s[k] == data[at[k]])
    && forall j, k | 0 <= j < k < |at| :: at[j] < at[k]
  }

  /** s is data with one byte taken out. */
  ghost predicate OneShorter(s: seq<Byte>, data: seq<Byte>) {
    |s| + 1 == |data| && exists at :: PickedAt(s, data, at)
  }

  /** No single byte can be taken out. */
  ghost predicate OneMinimal(data: seq<Byte>, fails: Oracle) {
    forall s | OneShorter(s, data) :: !fails(s)
  }

  lemma DropIsShorter(data: seq<Byte>, i: nat)
    requires i < |data|
    ensures OneShorter(Drop(data, i, 1), data)
  {
    var r := Drop(data, i, 1);
    assert PickedAt(r, data, seq(|r|, k requires 0 <= k < |r| => if k < i then k else k + 1));
  }

  /** Where nothing has been left out yet, or everything since the gap. */
  lemma {:induction false} AtOrNext(s: seq<Byte>, data: seq<Byte>, at: seq<nat>, k: nat)
    requires PickedAt(s, data, at) && |s| + 1 == |data| && k < |s|
    ensures k <= at[k] <= k + 1
    decreases |s| - k
  {
    AtLeast(s, data, at, 0, k);
    if k < |s| - 1 {
      AtOrNext(s, data, at, k + 1);
    }
  }

  lemma {:induction false} AtLeast(s: seq<Byte>, data: seq<Byte>, at: seq<nat>, i: nat, k: nat)
    requires PickedAt(s, data, at) && i <= k < |s|
    ensures at[i] + (k - i) <= at[k]
    decreases k
  {
    if i < k {
      AtLeast(s, data, at, i, k - 1);
    }
  }

  /** The gap at or after i, if the first i bytes are all there. */
  lemma {:induction false} FindGap(s: seq<Byte>, data: seq<Byte>, at: seq<nat>, i: nat) returns (gap: nat)
    requires PickedAt(s, data, at) && |s| + 1 == |data| && i <= |s| && forall k | 0 <= k < i :: at[k] == k
    ensures gap < |data| && s == Drop(data, gap, 1)
    decreases |s| - i
  {
    if i < |s| {
      AtOrNext(s, data, at, i);
    }
    if i < |s| && at[i] == i {
      gap := FindGap(s, data, at, i + 1);
    } else {
      gap := i;
      forall k | i <= k < |s|
        ensures at[k] == k + 1
      {
        AtLeast(s, data, at, i, k);
        AtOrNext(s, data, at, k);
      }
    }
  }

  lemma OneMinimalIsNoDrop(data: seq<Byte>, fails: Oracle)
    ensures OneMinimal(data, fails) <==> NoDropBelow(data, fails, |data|)
  {
    if OneMinimal(data, fails) {
      forall i: nat | i < |data|
        ensures !fails(Drop(data, i, 1))
      {
        DropIsShorter(data, i);
      }
    }
    if NoDropBelow(data, fails, |data|) {
      forall s | OneShorter(s, data)
        ensures !fails(s)
      {
        var at :| PickedAt(s, data, at);
        var gap := FindGap(s, data, at, 0);
      }
    }
  }

  /** The scan from i on: a run of chunk bytes goes if the rest still fails. */
  function Scan(data: seq<Byte>, fails: Oracle, chunk: nat, i: nat): (r: seq<Byte>)
    requires chunk > 0
    ensures |r| <= |data|
    decreases |data| - i
  {
    if |data| <= i then data
    else if fails(Drop(data, i, chunk)) then Scan(Drop(data, i, chunk), fails, chunk, i)
    else Scan(data, fails, chunk, i + chunk)
  }

  /** One scan of remove_pass. */
  method DropScan(data: seq<Byte>, fails: Oracle, chunk: nat) returns (r: seq<Byte>, dropped: bool)
    requires fails(data) && chunk > 0
    ensures fails(r) && Derived(r, data)
    ensures if dropped then |r| < |data| else r == data
    ensures r == Scan(data, fails, chunk, 0)
    ensures !dropped && chunk == 1 ==> OneMinimal(r, fails)
  {
    r, dropped := data, false;
    DerivedSelf(data);
    var i := 0;
    while i < |r|
      invariant 0 <= i && fails(r) && Derived(r, data)
      invariant Scan(data, fails, chunk, 0) == Scan(r, fails, chunk, i)
      invariant if dropped then |r| < |data| else r == data
      invariant !dropped && chunk == 1 ==> NoDropBelow(data, fails, i)
      decreases |r| - i
    {
      var candidate := Drop(r, i, chunk);
      if candidate != r && fails(candidate) {
        DropDerived(r, i, chunk);
        DerivedTrans(candidate, r, data);
        r, dropped := candidate, true;
      } else {
        i := i + chunk;
      }
    }
    OneMinimalIsNoDrop(r, fails);
  }

  /** remove_pass */
  method RemovePass(input: seq<Byte>, fails: Oracle) returns (data: seq<Byte>)
    requires fails(input)
    ensures fails(data) && Derived(data, input)
    ensures data == input || (|data| < |input| && |input| >= 2)
    ensures data == input && |input| >= 2 ==> OneMinimal(data, fails)
    ensures |input| == 2 ==> data == Scan(input, fails, 1, 0)
  {
    data := input;
    DerivedSelf(input);
    var n := 2;
    while |data| >= 2 && n <= |data|
      invariant n >= 2 && fails(data) && Derived(data, input)
      invariant data == input || (|data| < |input| && |input| >= 2)
      invariant data == input && |data| >= 2 && n > |data| ==> OneMinimal(data, fails)
      invariant |input| == 2 ==> data == Scan(input, fails, 1, 0) || (data == input && n == 2)
      decreases |data|, |data| - n
    {
      var chunk := if |data| / n < 1 then 1 else |data| / n;
      var shorter, dropped := DropScan(data, fails, chunk);
      DerivedTrans(shorter, data, input);
      if dropped {
        n := if n - 1 < 2 then 2 else n - 1;
      } else {
        if 2 * n > |data| {
          LastChunk(|data|, n);
        }
        n := 2 * n;
      }
      data := shorter;
    }
  }

  lemma LastChunk(len: nat, n: nat)
    requires 0 < n <= len < 2 * n
    ensures len / n == 1
  {
  }

  // ---- Simplifying ---------------------------------------------------------

  /** Moving byte i to b no longer fails. */
  ghost predicate Stuck(data: seq<Byte>, fails: Oracle, i: nat, b: Byte)
    requires i < |data|
  {
    !fails(data[i := b])
  }

  /** Byte i cannot be made easier to read. */
  ghost predicate SimplestAt(data: seq<Byte>, fails: Oracle, i: nat)
    requires i < |data|
  {
    && (data[i] != 0x00 ==> Stuck(data, fails, i, 0x00))
    && (data[i] != 0x00 && data[i] != 0x41 ==> Stuck(data, fails, i, 0x41))
  }

  ghost predicate Simplest(data: seq<Byte>, fails: Oracle) {
    forall i: nat | i < |data| :: SimplestAt(data, fails, i)
  }

  const SIMPLIFY_TO: seq<Byte> := [0x00, 0x41]

  /** The inner loop of simplify_pass: try the easier values for byte i. */
  method SimplifyByte(out: array<Byte>, i: nat, fails: Oracle)
    requires i < out.Length && fails(out[..])
    modifies out
    ensures fails(out[..]) && out[..] == old(out[..])[i := out[i]]
    ensures out[i] == old(out[i]) || ((out[i] == 0x00 || out[i] == 0x41) && Rank(out[i]) < Rank(old(out[i])))
    ensures out[i] == old(out[i]) ==> SimplestAt(old(out[..]), fails, i)
  {
    ghost var before := out[..];
    var v := 0;
    while v < 2
      invariant 0 <= v <= 2 && out[..] == before
      invariant v > 0 ==> before[i] != 0x00 && Stuck(before, fails, i, 0x00)
      invariant v > 1 ==> before[i] != 0x41 && Stuck(before, fails, i, 0x41)
      decreases 2 - v
    {
      var value := SIMPLIFY_TO[v];
      if out[i] == value {
        break;
      }
      var was := out[i];
      out[i] := value;
      assert out[..] == before[i := value];
      if fails(out[..]) {
        break;
      }
      out[i] := was;
      assert out[..] == before;
      v := v + 1;
    }
  }

  /** simplify_pass has treated the bytes below i. */
  ghost predicate Simplified(data: seq<Byte>, out: seq<Byte>, fails: Oracle, i: int) {
    && fails(out) && |out| == |data| && Derived(out, data)
    && (forall k | 0 <= i <= k < |data| :: out[k] == data[k])
    && if out == data then forall k: nat | k < i && k < |data| :: SimplestAt(data, fails, k)
       else Ranks(out) < Ranks(data)
  }

  lemma SimplifiedStart(data: seq<Byte>, fails: Oracle)
    requires fails(data)
    ensures Simplified(data, data, fails, 0)
  {
    DerivedSelf(data);
  }

  lemma SimplifiedSame(data: seq<Byte>, out: seq<Byte>, fails: Oracle, i: nat)
    requires i < |data| && Simplified(data, out, fails, i) && SimplestAt(out, fails, i)
    ensures Simplified(data, out, fails, i + 1)
  {
    if out == data {
      assert forall k: nat | k < i :: SimplestAt(data, fails, k);
    }
  }

  lemma SimplifiedChange(data: seq<Byte>, out: seq<Byte>, fails: Oracle, i: nat, b: Byte)
    requires i < |data| && Simplified(data, out, fails, i) && fails(out[i := b])
    requires (b == 0x00 || b == 0x41) && Rank(b) < Rank(out[i])
    ensures Simplified(data, out[i := b], fails, i + 1)
  {
    RanksUpdate(out, i, b);
    ReplaceDerived(out, i, b);
    DerivedTrans(out[i := b], out, data);
    assert out[i := b][i] != data[i];
  }

  /** simplify_pass, on a copy of the input. */
  method SimplifyPass(data: seq<Byte>, fails: Oracle) returns (r: seq<Byte>)
    requires fails(data)
    ensures fails(r) && |r| == |data| && Derived(r, data)
    ensures if r == data then Simplest(data, fails) else Ranks(r) < Ranks(data)
  {
    var out := new Byte[|data|](i requires 0 <= i < |data| => data[i]);
    assert out[..] == data;
    SimplifiedStart(data, fails);
    for i := 0 to out.Length
      invariant Simplified(data, out[..], fails, i)
    {
      ghost var before := out[..];
      SimplifyByte(out, i, fails);
      if out[i] == before[i] {
        assert out[..] == before;
        SimplifiedSame(data, before, fails, i);
      } else {
        SimplifiedChange(data, before, fails, i, out[i]);
      }
    }
    r := out[..];
  }

  // ---- The outer loop ------------------------------------------------------

  /** Either the empty input passes, or every one-byte input does. */
  ghost predicate NoLoneByte(fails: Oracle) {
    !fails([]) || forall b: Byte :: !fails([b])
  }

  /** The first scan takes one of two bytes. */
  ghost predicate LeavesOne(input: seq<Byte>, fails: Oracle) {
    |input| == 2 && |Scan(input, fails, 1, 0)| == 1
  }

  /** The loop of main: nothing for an input that does not fail; otherwise a
      failing output derived from the input in which no byte can be made easier.
      The oracles for which every output is 1-minimal are those with no lone
      byte: for them it is, and for any other a run from a lone byte is not. */
  method Minimise(input: seq<Byte>, fails: Oracle) returns (result: Option<seq<Byte>>)
    ensures result.None? <==> !fails(input)
    ensures result.Some? ==> fails(result.value) && Derived(result.value, input) && Simplest(result.value, fails)
    ensures result.Some? && NoLoneByte(fails) ==> OneMinimal(result.value, fails)
    ensures result.Some? && |input| == 1 ==> (OneMinimal(result.value, fails) <==> NoLoneByte(fails))
    ensures result.Some? ==> (OneMinimal(result.value, fails) <==> |result.value| != 1 || !fails([]))
    ensures result.Some? && (|input| == 1 || LeavesOne(input, fails)) ==> |result.value| == 1
  {
    if !fails(input) {
      return None;
    }
    var data := input;
    DerivedSelf(input);
    while true
      invariant fails(data) && Derived(data, input) && (|input| == 1 ==> |data| == 1)
      invariant LeavesOne(input, fails) ==> data == input || |data| == 1
      decreases |data|, Ranks(data)
    {
      var before := data;
      var shorter := RemovePass(data, fails);
      DerivedTrans(shorter, data, input);
      data := SimplifyPass(shorter, fails);
      DerivedTrans(data, shorter, input);
      if data == before {
        break;
      }
    }
    OneMinimalIsNoDrop(data, fails);
    if |data| == 1 {
      assert Drop(data, 0, 1) == [] && data == [data[0]];
    }
    if |input| == 1 {
      assert input == [input[0]];
    }
    result := Some(data);
  }

  function Always(data: seq<Byte>): bool {
    true
  }

  function Ends(data: seq<Byte>): bool {
    data in {[0x62, 0x61], [0x62], []}
  }

  /** Two runs that stop at one byte although the empty input fails too. */
  method EmptyNotTried() returns (one: Option<seq<Byte>>, two: Option<seq<Byte>>)
    ensures one.Some? && !OneMinimal(one.value, Always)
    ensures two == Some([0x62]) && !OneMinimal([0x62], Ends)
  {
    one := Minimise([0x62], Always);
    assert Drop([0x62, 0x61], 0, 1) == [0x61] && Drop([0x62, 0x61], 1, 1) == [0x62];
    two := Minimise([0x62, 0x61], Ends);
    assert |two.value| == 1 && Ends(two.value);
    assert Drop([0x62], 0, 1) == [];
    OneMinimalIsNoDrop([0x62], Ends);
  }
}
