/** Choosing a free /24 for a node's own network inside the VPC. */
module Vxnet {
  import opened Common

  /** The text of a network is a function of its address and mask bytes, and different for different ones. */
  datatype NetText = NetText(ip: seq<byte>, mask: seq<byte>)

  /** Candidate number i: the third byte of the address is i, that of the mask 255. */
  function Candidate(ip: seq<byte>, mask: seq<byte>, i: byte): NetText
    requires |ip| == 4 && |mask| == 4
  {
    NetText(ip[2 := i], mask[2 := 255])
  }

  /** i is the least number from 1 to 252 whose candidate no network has. */
  predicate IsLeast(ip: seq<byte>, mask: seq<byte>, vxnets: seq<NetText>, i: byte)
    requires |ip| == 4 && |mask| == 4
  {
    && 1 <= i <= 252 && Candidate(ip, mask, i) !in vxnets
    && forall j: byte :: 1 <= j < i ==> Candidate(ip, mask, j) in vxnets
  }

  /** Tries 1, 2, ..., 252 in place and stops at the first candidate no network has. The slices are those of the
      caller's VPC network: they keep the last candidate tried, from a /16 a /24 inside it. */
  method ChooseIPFromVxnet(ip: array<byte>, mask: array<byte>, vxnets: seq<NetText>) returns (found: bool)
    requires ip.Length == 4 && mask.Length == 4 && ip != mask
    modifies ip, mask
    ensures var was, wasMask := old(ip[..]), old(mask[..]);
      if found then
        exists i: byte :: IsLeast(was, wasMask, vxnets, i) && NetText(ip[..], mask[..]) == Candidate(was, wasMask, i)
      else
        NetText(ip[..], mask[..]) == Candidate(was, wasMask, 252)
        && forall j: byte :: 1 <= j <= 252 ==> Candidate(was, wasMask, j) in vxnets
    ensures mask[2] == 255 && ip[0] == old(ip[0]) && ip[1] == old(ip[1]) && ip[3] == old(ip[3]) && 1 <= ip[2] <= 252
    ensures found <==> NetText(ip[..], mask[..]) !in vxnets
    ensures forall j: byte :: 1 <= j < ip[2] ==> Candidate(old(ip[..]), old(mask[..]), j) in vxnets
    ensures !found ==> ip[2] == 252
    ensures old(mask[..]) == [255, 255, 0, 0] ==>
      mask[..] == [255, 255, 255, 0] && ip[0] == old(ip[0]) && ip[1] == old(ip[1]) && 1 <= ip[2] <= 252
      && ip[3] == old(ip[3])
  {
    ghost var was, wasMask := ip[..], mask[..];
    var maps: map<NetText, bool> := map[];
    for k := 0 to |vxnets|
      invariant forall t :: t in maps <==> t in vxnets[..k]
    {
      maps := maps[vxnets[k] := true];
    }
    assert vxnets[..|vxnets|] == vxnets;
    var index: byte := 1;
    while index < 253
      invariant 1 <= index <= 253
      invariant index == 1 ==> ip[..] == was && mask[..] == wasMask
      invariant index > 1 ==> NetText(ip[..], mask[..]) == Candidate(was, wasMask, index - 1)
      invariant forall j: byte :: 1 <= j < index ==> Candidate(was, wasMask, j) in vxnets
    {
      ip[2] := index;
      mask[2] := 255;
      assert ip[..] == was[2 := index] && mask[..] == wasMask[2 := 255];
      if NetText(ip[..], mask[..]) !in maps {
        assert NetText(ip[..], mask[..]) == Candidate(was, wasMask, index);
        assert IsLeast(was, wasMask, vxnets, index);
        return true;
      }
      index := index + 1;
    }
    return false;
  }

  /** Candidate i has i for its third byte, and 255 for that of its mask. */
  lemma CandidateBytes(ip: seq<byte>, mask: seq<byte>, i: byte)
    requires |ip| == 4 && |mask| == 4
    ensures Candidate(ip, mask, i) == NetText([ip[0], ip[1], i, ip[3]], [mask[0], mask[1], 255, mask[3]])
  {}

  lemma CandidatesDiffer(ip: seq<byte>, mask: seq<byte>, i: byte, j: byte)
    requires |ip| == 4 && |mask| == 4 && i != j
    ensures Candidate(ip, mask, i) != Candidate(ip, mask, j)
  {
    assert ip[2 := i][2] != ip[2 := j][2];
  }

  /** Distinct candidates that all occur in a list cannot be more than the list is long. */
  lemma {:induction false} Pigeonhole(ip: seq<byte>, mask: seq<byte>, vxnets: seq<NetText>, n: nat)
    requires |ip| == 4 && |mask| == 4 && n <= 252
    requires forall j: byte :: 1 <= j <= n ==> Candidate(ip, mask, j) in vxnets
    ensures n <= |vxnets|
  {
    if n > 0 {
      var c := Candidate(ip, mask, n);
      var k :| 0 <= k < |vxnets| && vxnets[k] == c;
      var rest := vxnets[..k] + vxnets[k + 1..];
      forall j: byte | 1 <= j <= n - 1 ensures Candidate(ip, mask, j) in rest {
        CandidatesDiffer(ip, mask, j, n);
        var m :| 0 <= m < |vxnets| && vxnets[m] == Candidate(ip, mask, j);
        assert m != k;
        assert rest[if m < k then m else m - 1] == vxnets[m];
      }
      Pigeonhole(ip, mask, rest, n - 1);
    }
  }

  /** With fewer than 252 networks in the VPC some candidate is free, so the choice succeeds. */
  lemma RoomForOne(ip: seq<byte>, mask: seq<byte>, vxnets: seq<NetText>)
    requires |ip| == 4 && |mask| == 4 && |vxnets| < 252
    ensures exists j: byte :: 1 <= j <= 252 && Candidate(ip, mask, j) !in vxnets
  {
    if forall j: byte :: 1 <= j <= 252 ==> Candidate(ip, mask, j) in vxnets {
      Pigeonhole(ip, mask, vxnets, 252);
    }
  }
}
