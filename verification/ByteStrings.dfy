/**
  Byte strings and the exclusive-or algebra the parity scheme rests on.
*/
module ByteStrings {

  type Bytes = seq<bv8>

  datatype Option<+T> = None | Some(value: T)

  datatype Result<+T, +E> = Ok(value: T) | Err(error: E)

  /** Byte i of a string read as if it were followed by zeros for ever. */
  function ByteAt(s: Bytes, i: nat): bv8 {
    if i < |s| then s[i] else 0
  }

  /** Exclusive-or of byte i over a whole group. */
  function ParityByte(group: seq<Bytes>, i: nat): bv8 {
    if group == [] then 0 else ParityByte(group[..|group| - 1], i) ^ ByteAt(group[|group| - 1], i)
  }

  /** The parity of a group, `length` bytes long. */
  function Parity(group: seq<Bytes>, length: nat): (parity: Bytes)
    ensures |parity| == length
  {
    seq(length, (i: nat) => ParityByte(group, i))
  }

  /** `payload` folded into the front of `parity`. */
  function XorInto(parity: Bytes, payload: Bytes): (r: Bytes)
    ensures |r| == |parity|
  {
    seq(|parity|, (i: nat) requires i < |parity| => parity[i] ^ ByteAt(payload, i))
  }

  function Min(a: nat, b: nat): (m: nat)
    ensures m <= a && m <= b && (m == a || m == b)
  {
    if a <= b then a else b
  }

  function Max(a: nat, b: nat): (m: nat)
    ensures m >= a && m >= b && (m == a || m == b)
  {
    if a >= b then a else b
  }

  /** Length of the longest member, 0 for no members. */
  function LongestLength(group: seq<Bytes>): nat {
    if group == [] then 0 else Max(LongestLength(group[..|group| - 1]), |group[|group| - 1]|)
  }

  lemma {:induction false} LongestLengthIsMaximum(group: seq<Bytes>)
    ensures forall k :: 0 <= k < |group| ==> |group[k]| <= LongestLength(group)
    ensures group != [] ==> exists k :: 0 <= k < |group| && |group[k]| == LongestLength(group)
  {
    if group != [] {
      var front, last := group[..|group| - 1], |group| - 1;
      LongestLengthIsMaximum(front);
      assert forall k :: 0 <= k < last ==> front[k] == group[k];
      if LongestLength(group) != |group[last]| {
        assert LongestLength(front) != 0 && front != [];
        var k :| 0 <= k < |front| && |front[k]| == LongestLength(front);
        assert |group[k]| == LongestLength(group);
      }
    }
  }

  function Concat(parts: seq<Bytes>): Bytes {
    if parts == [] then [] else Concat(parts[..|parts| - 1]) + parts[|parts| - 1]
  }

  lemma ConcatAppend(parts: seq<Bytes>, part: Bytes)
    ensures Concat(parts + [part]) == Concat(parts) + part
  {
    assert (parts + [part])[..|parts|] == parts;
  }

  lemma ConcatOne(piece: Bytes)
    ensures Concat([piece]) == piece
  {
    assert [piece][..0] == [];
    assert [] + piece == piece;
  }

  // ---------------------------------------------------------------- integer keys in order

  /** The least element of a non-empty set. */
  function Least(keys: set<nat>): (least: nat)
    requires keys != {}
    ensures least in keys && forall k :: k in keys ==> least <= k
  {
    LeastExists(keys);
    var least :| least in keys && forall k :: k in keys ==> least <= k;
    least
  }

  lemma LeastExists(keys: set<nat>)
    requires keys != {}
    ensures exists least :: least in keys && forall k :: k in keys ==> least <= k
  {
    var least := FindLeast(keys);
  }

  lemma {:induction false} FindLeast(keys: set<nat>) returns (least: nat)
    requires keys != {}
    ensures least in keys && forall k :: k in keys ==> least <= k
  {
    var some :| some in keys;
    var rest := keys - {some};
    assert forall k :: k in keys ==> k == some || k in rest;
    least := some;
    if rest != {} {
      var other := FindLeast(rest);
      least := if some < other then some else other;
    }
  }

  predicate Ascending(s: seq<nat>) {
    forall i, j :: 0 <= i < j < |s| ==> s[i] < s[j]
  }

  /** A finite set of naturals in ascending order: how an ordered map is iterated. */
  function SortedKeys(keys: set<nat>): (sorted: seq<nat>)
    ensures forall k :: k in sorted <==> k in keys
    ensures Ascending(sorted)
    decreases keys
  {
    if keys == {} then [] else
      var least := Least(keys);
      var rest := SortedKeys(keys - {least});
      assert forall k :: k in rest ==> least < k;
      [least] + rest
  }

  lemma PrefixNext<T>(s: seq<T>, i: nat)
    requires i < |s|
    ensures s[..i + 1] == s[..i] + [s[i]]
  {
  }

  lemma AscendingIsNew(sorted: seq<nat>, i: nat)
    requires Ascending(sorted) && i < |sorted|
    ensures sorted[i] !in sorted[..i]
  {
  }

  lemma DropThenTake<T>(s: seq<T>, a: nat, b: nat)
    requires a + b <= |s|
    ensures s[a..][..b] == s[a..a + b] && s[a..][b..] == s[a + b..]
  {
  }

  lemma AppendParts<T>(s: seq<T>, t: seq<T>)
    ensures (s + t)[..|s|] == s && (s + t)[|s|..] == t
  {
  }
}
