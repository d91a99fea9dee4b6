/**
 The four messages of the RPC interface. Value() is a message as a list of numbered fields; every method is proved
 against the format of module Wire.
 */
module RpcMessages {
  import opened Common
  import opened Varint
  import opened Wire
  import opened RpcFields
  import opened WireTheorems

  class AddNetworkRequest {
    var podName: gostring
    var podNamespace: gostring
    var podInfraContainerID: gostring
    var netns: gostring
    var ifName: gostring

    constructor ()
      ensures Value() == Zero(Value())
      ensures podName == [] && podNamespace == [] && podInfraContainerID == [] && netns == [] && ifName == []
    {
      podName := [];
      podNamespace := [];
      podInfraContainerID := [];
      netns := [];
      ifName := [];
    }

    ghost function Value(): (m: Message)
      reads this
      ensures DistinctNums(m)
    {
      [Field(1, Str(podName)), Field(2, Str(podNamespace)), Field(3, Str(podInfraContainerID)), Field(4, Str(netns)),
       Field(5, Str(ifName))]
    }

    /** The bytes of the message, key by key. */
    lemma Layout()
      ensures Encode(Value())
           == Text(0x0a, podName) + Text(0x12, podNamespace) + Text(0x1a, podInfraContainerID)
           + Text(0x22, netns) + Text(0x2a, ifName)
    {
      hide Encode, EncodeField, Text, Texts, Flag, Number;
      TextBytes(1, podName);
      TextBytes(2, podNamespace);
      TextBytes(3, podInfraContainerID);
      TextBytes(4, netns);
      TextBytes(5, ifName);
      var m5 := [Field(5, Str(ifName))];
      EncodeOne(m5[0]);
      var m4 := [Field(4, Str(netns))] + m5;
      EncodeCons(Field(4, Str(netns)), m5);
      var m3 := [Field(3, Str(podInfraContainerID))] + m4;
      EncodeCons(Field(3, Str(podInfraContainerID)), m4);
      var m2 := [Field(2, Str(podNamespace))] + m3;
      EncodeCons(Field(2, Str(podNamespace)), m3);
      var m1 := [Field(1, Str(podName))] + m2;
      EncodeCons(Field(1, Str(podName)), m2);
      assert Value() == m1;
    }

    method Size() returns (n: nat)
      ensures n == |Encode(Value())|
    {
      hide EncodeField;
      ghost var m := Value();
      assert m[..0] == [] && m[..5] == m;
      var l1 := SizeString(1, podName); EncodeNext(m, 0);
      var l2 := SizeString(2, podNamespace); EncodeNext(m, 1);
      var l3 := SizeString(3, podInfraContainerID); EncodeNext(m, 2);
      var l4 := SizeString(4, netns); EncodeNext(m, 3);
      var l5 := SizeString(5, ifName); EncodeNext(m, 4);
      n := l1 + l2 + l3 + l4 + l5;
    }

    method MarshalTo(dAtA: array<byte>) returns (i: nat)
      requires |Encode(Value())| <= dAtA.Length
      modifies dAtA
      ensures i == |Encode(Value())|
      ensures dAtA[..i] == Encode(Value()) && dAtA[i..] == old(dAtA[i..])
    {
      hide EncodeField;
      ghost var m, was := Value(), dAtA[..];
      assert m[..0] == [];
      i := 0;
      i := WriteString(dAtA, i, 0xa, podName, m, 0, was);
      i := WriteString(dAtA, i, 0x12, podNamespace, m, 1, was);
      i := WriteString(dAtA, i, 0x1a, podInfraContainerID, m, 2, was);
      i := WriteString(dAtA, i, 0x22, netns, m, 3, was);
      i := WriteString(dAtA, i, 0x2a, ifName, m, 4, was);
      assert m[..5] == m;
    }

    method Marshal() returns (data: seq<byte>)
      ensures data == Encode(Value())
    {
      var size := Size();
      var dAtA := new byte[size];
      var n := MarshalTo(dAtA);
      data := dAtA[..n];
    }

    method Unmarshal(dAtA: seq<byte>) returns (err: Option<Error>)
      modifies this
      ensures Wire.Unmarshal(old(Value()), dAtA) == Parsed(Value(), err)
    {
      hide Wire.Unmarshal, Reached;
      ghost var m0 := Value();
      var iNdEx := 0;
      StartAndEnd(m0, dAtA, m0);
      while iNdEx < |dAtA|
        invariant iNdEx <= |dAtA| && Reached(m0, dAtA, Value(), iNdEx)
      {
        iNdEx, err := UnmarshalField(dAtA, iNdEx, m0);
        if err.Some? { return err; }
      }
      StartAndEnd(m0, dAtA, Value());
      return None;
    }

    /** One turn of the parsing loop. */
    method UnmarshalField(dAtA: seq<byte>, iNdEx: nat, ghost m0: Message) returns (next: nat, err: Option<Error>)
      requires iNdEx < |dAtA| && Reached(m0, dAtA, Value(), iNdEx)
      modifies this
      ensures if err.None? then iNdEx < next <= |dAtA| && Reached(m0, dAtA, Value(), next)
              else Stopped(m0, dAtA, Value(), err)
    {
      hide Wire.Unmarshal, AtField, Reached, Stopped, DistinctNums;
      ghost var m := Value();
      var fieldNum, wireType, body, e := ReadTag(dAtA, iNdEx, m0, m);
      if e.Some? { return body, e; }
      match fieldNum {
        case 1 =>
          podName, next, err := ReadString(wireType, dAtA, body, podName, m0, m, 0, iNdEx);
          assert Value() == m[0 := Field(1, Str(podName))];
        case 2 =>
          podNamespace, next, err := ReadString(wireType, dAtA, body, podNamespace, m0, m, 1, iNdEx);
          assert Value() == m[1 := Field(2, Str(podNamespace))];
        case 3 =>
          podInfraContainerID, next, err := ReadString(wireType, dAtA, body, podInfraContainerID, m0, m, 2, iNdEx);
          assert Value() == m[2 := Field(3, Str(podInfraContainerID))];
        case 4 =>
          netns, next, err := ReadString(wireType, dAtA, body, netns, m0, m, 3, iNdEx);
          assert Value() == m[3 := Field(4, Str(netns))];
        case 5 =>
          ifName, next, err := ReadString(wireType, dAtA, body, ifName, m0, m, 4, iNdEx);
          assert Value() == m[4 := Field(5, Str(ifName))];
        case _ => next, err := SkipUnknownField(dAtA, iNdEx, m0, m, fieldNum, wireType, body);
      }
    }
  }

  class AddNetworkReply {
    var success: bool
    var ipv4Addr: gostring
    var ipv4Subnet: gostring
    var deviceNumber: int32
    var useExternalSNAT: bool
    var message: gostring
    var vpcCidrs: seq<gostring>

    constructor ()
      ensures Value() == Zero(Value())
      ensures !success && ipv4Addr == [] && ipv4Subnet == [] && deviceNumber == 0 && !useExternalSNAT
      ensures message == [] && vpcCidrs == []
    {
      success := false;
      ipv4Addr := [];
      ipv4Subnet := [];
      deviceNumber := 0;
      useExternalSNAT := false;
      message := [];
      vpcCidrs := [];
    }

    ghost function Value(): (m: Message)
      reads this
      ensures DistinctNums(m)
    {
      Fields(success, ipv4Addr, ipv4Subnet, deviceNumber, useExternalSNAT, message, vpcCidrs)
    }

    static function Fields(b1: bool, s2: gostring, s3: gostring, d4: int32, b5: bool, s6: gostring,
                           ss7: seq<gostring>): (m: Message)
      ensures DistinctNums(m) && |m| == 7
      ensures m[0] == Field(1, Bool(b1)) && m[1] == Field(2, Str(s2)) && m[2] == Field(3, Str(s3))
      ensures m[3] == Field(4, Int32(d4))
      ensures m[4] == Field(5, Bool(b5)) && m[5] == Field(6, Str(s6)) && m[6] == Field(7, Strs(ss7))
    {
      [Field(1, Bool(b1)), Field(2, Str(s2)), Field(3, Str(s3)), Field(4, Int32(d4)), Field(5, Bool(b5)),
       Field(6, Str(s6)), Field(7, Strs(ss7))]
    }

    /** The bytes of the message, key by key. */
    lemma Layout()
      ensures Encode(Value())
           == Flag(0x08, success) + Text(0x12, ipv4Addr) + Text(0x1a, ipv4Subnet)
           + Number(0x20, deviceNumber) + Flag(0x28, useExternalSNAT) + Text(0x32, message)
           + Texts(0x3a, vpcCidrs)
    {
      hide Encode, EncodeField, Text, Texts, Flag, Number;
      FlagBytes(1, success);
      TextBytes(2, ipv4Addr);
      TextBytes(3, ipv4Subnet);
      NumberBytes(4, deviceNumber);
      FlagBytes(5, useExternalSNAT);
      TextBytes(6, message);
      TextsBytes(7, vpcCidrs);
      var m7 := [Field(7, Strs(vpcCidrs))];
      EncodeOne(m7[0]);
      var m6 := [Field(6, Str(message))] + m7;
      EncodeCons(Field(6, Str(message)), m7);
      var m5 := [Field(5, Bool(useExternalSNAT))] + m6;
      EncodeCons(Field(5, Bool(useExternalSNAT)), m6);
      var m4 := [Field(4, Int32(deviceNumber))] + m5;
      EncodeCons(Field(4, Int32(deviceNumber)), m5);
      var m3 := [Field(3, Str(ipv4Subnet))] + m4;
      EncodeCons(Field(3, Str(ipv4Subnet)), m4);
      var m2 := [Field(2, Str(ipv4Addr))] + m3;
      EncodeCons(Field(2, Str(ipv4Addr)), m3);
      var m1 := [Field(1, Bool(success))] + m2;
      EncodeCons(Field(1, Bool(success)), m2);
      assert Value() == m1;
    }

    method Size() returns (n: nat)
      ensures n == |Encode(Value())|
    {
      hide EncodeField;
      ghost var m := Value();
      assert m[..0] == [] && m[..7] == m;
      var l1 := SizeBool(1, success); EncodeNext(m, 0);
      var l2 := SizeString(2, ipv4Addr); EncodeNext(m, 1);
      var l3 := SizeString(3, ipv4Subnet); EncodeNext(m, 2);
      var l4 := SizeInt32(4, deviceNumber); EncodeNext(m, 3);
      var l5 := SizeBool(5, useExternalSNAT); EncodeNext(m, 4);
      var l6 := SizeString(6, message); EncodeNext(m, 5);
      var l7 := SizeStrings(7, vpcCidrs); EncodeNext(m, 6);
      n := l1 + l2 + l3 + l4 + l5 + l6 + l7;
    }

    method MarshalTo(dAtA: array<byte>) returns (i: nat)
      requires |Encode(Value())| <= dAtA.Length
      modifies dAtA
      ensures i == |Encode(Value())|
      ensures dAtA[..i] == Encode(Value()) && dAtA[i..] == old(dAtA[i..])
    {
      hide EncodeField;
      ghost var m, was := Value(), dAtA[..];
      assert m[..0] == [];
      i := 0;
      i := WriteBool(dAtA, i, 0x8, success, m, 0, was);
      i := WriteString(dAtA, i, 0x12, ipv4Addr, m, 1, was);
      i := WriteString(dAtA, i, 0x1a, ipv4Subnet, m, 2, was);
      i := WriteInt32(dAtA, i, 0x20, deviceNumber, m, 3, was);
      i := WriteBool(dAtA, i, 0x28, useExternalSNAT, m, 4, was);
      i := WriteString(dAtA, i, 0x32, message, m, 5, was);
      i := WriteStrings(dAtA, i, 0x3a, vpcCidrs, m, 6, was);
      assert m[..7] == m;
    }

    method Marshal() returns (data: seq<byte>)
      ensures data == Encode(Value())
    {
      var size := Size();
      var dAtA := new byte[size];
      var n := MarshalTo(dAtA);
      data := dAtA[..n];
    }

    method Unmarshal(dAtA: seq<byte>) returns (err: Option<Error>)
      modifies this
      ensures Wire.Unmarshal(old(Value()), dAtA) == Parsed(Value(), err)
    {
      hide Wire.Unmarshal, Reached;
      ghost var m0 := Value();
      var iNdEx := 0;
      StartAndEnd(m0, dAtA, m0);
      while iNdEx < |dAtA|
        invariant iNdEx <= |dAtA| && Reached(m0, dAtA, Value(), iNdEx)
      {
        iNdEx, err := UnmarshalField(dAtA, iNdEx, m0);
        if err.Some? { return err; }
      }
      StartAndEnd(m0, dAtA, Value());
      return None;
    }

    /** One turn of the parsing loop. */
    method UnmarshalField(dAtA: seq<byte>, iNdEx: nat, ghost m0: Message) returns (next: nat, err: Option<Error>)
      requires iNdEx < |dAtA| && Reached(m0, dAtA, Value(), iNdEx)
      modifies this
      ensures if err.None? then iNdEx < next <= |dAtA| && Reached(m0, dAtA, Value(), next)
              else Stopped(m0, dAtA, Value(), err)
    {
      hide Wire.Unmarshal, AtField, Reached, Stopped, DistinctNums, Fields;
      ghost var m := Value();
      var fieldNum, wireType, body, e := ReadTag(dAtA, iNdEx, m0, m);
      if e.Some? { return body, e; }
      match fieldNum {
        case 1 =>
          success, next, err := ReadBool(wireType, dAtA, body, success, m0, m, 0, iNdEx);
          assert Value() == m[0 := Field(1, Bool(success))];
        case 2 =>
          ipv4Addr, next, err := ReadString(wireType, dAtA, body, ipv4Addr, m0, m, 1, iNdEx);
          assert Value() == m[1 := Field(2, Str(ipv4Addr))];
        case 3 =>
          ipv4Subnet, next, err := ReadString(wireType, dAtA, body, ipv4Subnet, m0, m, 2, iNdEx);
          assert Value() == m[2 := Field(3, Str(ipv4Subnet))];
        case 4 =>
          deviceNumber, next, err := ReadInt32(wireType, dAtA, body, deviceNumber, m0, m, 3, iNdEx);
          assert Value() == m[3 := Field(4, Int32(deviceNumber))];
        case 5 =>
          useExternalSNAT, next, err := ReadBool(wireType, dAtA, body, useExternalSNAT, m0, m, 4, iNdEx);
          assert Value() == m[4 := Field(5, Bool(useExternalSNAT))];
        case 6 =>
          message, next, err := ReadString(wireType, dAtA, body, message, m0, m, 5, iNdEx);
          assert Value() == m[5 := Field(6, Str(message))];
        case 7 =>
          vpcCidrs, next, err := ReadStrings(wireType, dAtA, body, vpcCidrs, m0, m, 6, iNdEx);
          assert Value() == m[6 := Field(7, Strs(vpcCidrs))];
        case _ => next, err := SkipUnknownField(dAtA, iNdEx, m0, m, fieldNum, wireType, body);
      }
    }
  }

  class DelNetworkRequest {
    var podName: gostring
    var podNamespace: gostring
    var podInfraContainerID: gostring
    var ipv4Addr: gostring
    var reason: gostring

    constructor ()
      ensures Value() == Zero(Value())
      ensures podName == [] && podNamespace == [] && podInfraContainerID == [] && ipv4Addr == [] && reason == []
    {
      podName := [];
      podNamespace := [];
      podInfraContainerID := [];
      ipv4Addr := [];
      reason := [];
    }

    ghost function Value(): (m: Message)
      reads this
      ensures DistinctNums(m)
    {
      [Field(1, Str(podName)), Field(2, Str(podNamespace)), Field(3, Str(podInfraContainerID)),
       Field(4, Str(ipv4Addr)), Field(5, Str(reason))]
    }

    /** The bytes of the message, key by key. */
    lemma Layout()
      ensures Encode(Value())
           == Text(0x0a, podName) + Text(0x12, podNamespace) + Text(0x1a, podInfraContainerID)
           + Text(0x22, ipv4Addr) + Text(0x2a, reason)
    {
      hide Encode, EncodeField, Text, Texts, Flag, Number;
      TextBytes(1, podName);
      TextBytes(2, podNamespace);
      TextBytes(3, podInfraContainerID);
      TextBytes(4, ipv4Addr);
      TextBytes(5, reason);
      var m5 := [Field(5, Str(reason))];
      EncodeOne(m5[0]);
      var m4 := [Field(4, Str(ipv4Addr))] + m5;
      EncodeCons(Field(4, Str(ipv4Addr)), m5);
      var m3 := [Field(3, Str(podInfraContainerID))] + m4;
      EncodeCons(Field(3, Str(podInfraContainerID)), m4);
      var m2 := [Field(2, Str(podNamespace))] + m3;
      EncodeCons(Field(2, Str(podNamespace)), m3);
      var m1 := [Field(1, Str(podName))] + m2;
      EncodeCons(Field(1, Str(podName)), m2);
      assert Value() == m1;
    }

    method Size() returns (n: nat)
      ensures n == |Encode(Value())|
    {
      hide EncodeField;
      ghost var m := Value();
      assert m[..0] == [] && m[..5] == m;
      var l1 := SizeString(1, podName); EncodeNext(m, 0);
      var l2 := SizeString(2, podNamespace); EncodeNext(m, 1);
      var l3 := SizeString(3, podInfraContainerID); EncodeNext(m, 2);
      var l4 := SizeString(4, ipv4Addr); EncodeNext(m, 3);
      var l5 := SizeString(5, reason); EncodeNext(m, 4);
      n := l1 + l2 + l3 + l4 + l5;
    }

    method MarshalTo(dAtA: array<byte>) returns (i: nat)
      requires |Encode(Value())| <= dAtA.Length
      modifies dAtA
      ensures i == |Encode(Value())|
      ensures dAtA[..i] == Encode(Value()) && dAtA[i..] == old(dAtA[i..])
    {
      hide EncodeField;
      ghost var m, was := Value(), dAtA[..];
      assert m[..0] == [];
      i := 0;
      i := WriteString(dAtA, i, 0xa, podName, m, 0, was);
      i := WriteString(dAtA, i, 0x12, podNamespace, m, 1, was);
      i := WriteString(dAtA, i, 0x1a, podInfraContainerID, m, 2, was);
      i := WriteString(dAtA, i, 0x22, ipv4Addr, m, 3, was);
      i := WriteString(dAtA, i, 0x2a, reason, m, 4, was);
      assert m[..5] == m;
    }

    method Marshal() returns (data: seq<byte>)
      ensures data == Encode(Value())
    {
      var size := Size();
      var dAtA := new byte[size];
      var n := MarshalTo(dAtA);
      data := dAtA[..n];
    }

    method Unmarshal(dAtA: seq<byte>) returns (err: Option<Error>)
      modifies this
      ensures Wire.Unmarshal(old(Value()), dAtA) == Parsed(Value(), err)
    {
      hide Wire.Unmarshal, Reached;
      ghost var m0 := Value();
      var iNdEx := 0;
      StartAndEnd(m0, dAtA, m0);
      while iNdEx < |dAtA|
        invariant iNdEx <= |dAtA| && Reached(m0, dAtA, Value(), iNdEx)
      {
        iNdEx, err := UnmarshalField(dAtA, iNdEx, m0);
        if err.Some? { return err; }
      }
      StartAndEnd(m0, dAtA, Value());
      return None;
    }

    /** One turn of the parsing loop. */
    method UnmarshalField(dAtA: seq<byte>, iNdEx: nat, ghost m0: Message) returns (next: nat, err: Option<Error>)
      requires iNdEx < |dAtA| && Reached(m0, dAtA, Value(), iNdEx)
      modifies this
      ensures if err.None? then iNdEx < next <= |dAtA| && Reached(m0, dAtA, Value(), next)
              else Stopped(m0, dAtA, Value(), err)
    {
      hide Wire.Unmarshal, AtField, Reached, Stopped, DistinctNums;
      ghost var m := Value();
      var fieldNum, wireType, body, e := ReadTag(dAtA, iNdEx, m0, m);
      if e.Some? { return body, e; }
      match fieldNum {
        case 1 =>
          podName, next, err := ReadString(wireType, dAtA, body, podName, m0, m, 0, iNdEx);
          assert Value() == m[0 := Field(1, Str(podName))];
        case 2 =>
          podNamespace, next, err := ReadString(wireType, dAtA, body, podNamespace, m0, m, 1, iNdEx);
          assert Value() == m[1 := Field(2, Str(podNamespace))];
        case 3 =>
          podInfraContainerID, next, err := ReadString(wireType, dAtA, body, podInfraContainerID, m0, m, 2, iNdEx);
          assert Value() == m[2 := Field(3, Str(podInfraContainerID))];
        case 4 =>
          ipv4Addr, next, err := ReadString(wireType, dAtA, body, ipv4Addr, m0, m, 3, iNdEx);
          assert Value() == m[3 := Field(4, Str(ipv4Addr))];
        case 5 =>
          reason, next, err := ReadString(wireType, dAtA, body, reason, m0, m, 4, iNdEx);
          assert Value() == m[4 := Field(5, Str(reason))];
        case _ => next, err := SkipUnknownField(dAtA, iNdEx, m0, m, fieldNum, wireType, body);
      }
    }
  }

  class DelNetworkReply {
    var success: bool
    var ipv4Addr: gostring
    var deviceNumber: int32
    var message: gostring

    constructor ()
      ensures Value() == Zero(Value())
      ensures !success && ipv4Addr == [] && deviceNumber == 0 && message == []
    {
      success := false;
      ipv4Addr := [];
      deviceNumber := 0;
      message := [];
    }

    ghost function Value(): (m: Message)
      reads this
      ensures DistinctNums(m)
    {
      [Field(1, Bool(success)), Field(2, Str(ipv4Addr)), Field(3, Int32(deviceNumber)), Field(4, Str(message))]
    }

    /** The bytes of the message, key by key. */
    lemma Layout()
      ensures Encode(Value())
           == Flag(0x08, success) + Text(0x12, ipv4Addr) + Number(0x18, deviceNumber)
           + Text(0x22, message)
    {
      hide Encode, EncodeField, Text, Texts, Flag, Number;
      FlagBytes(1, success);
      TextBytes(2, ipv4Addr);
      NumberBytes(3, deviceNumber);
      TextBytes(4, message);
      var m4 := [Field(4, Str(message))];
      EncodeOne(m4[0]);
      var m3 := [Field(3, Int32(deviceNumber))] + m4;
      EncodeCons(Field(3, Int32(deviceNumber)), m4);
      var m2 := [Field(2, Str(ipv4Addr))] + m3;
      EncodeCons(Field(2, Str(ipv4Addr)), m3);
      var m1 := [Field(1, Bool(success))] + m2;
      EncodeCons(Field(1, Bool(success)), m2);
      assert Value() == m1;
    }

    method Size() returns (n: nat)
      ensures n == |Encode(Value())|
    {
      hide EncodeField;
      ghost var m := Value();
      assert m[..0] == [] && m[..4] == m;
      var l1 := SizeBool(1, success); EncodeNext(m, 0);
      var l2 := SizeString(2, ipv4Addr); EncodeNext(m, 1);
      var l3 := SizeInt32(3, deviceNumber); EncodeNext(m, 2);
      var l4 := SizeString(4, message); EncodeNext(m, 3);
      n := l1 + l2 + l3 + l4;
    }

    method MarshalTo(dAtA: array<byte>) returns (i: nat)
      requires |Encode(Value())| <= dAtA.Length
      modifies dAtA
      ensures i == |Encode(Value())|
      ensures dAtA[..i] == Encode(Value()) && dAtA[i..] == old(dAtA[i..])
    {
      hide EncodeField;
      ghost var m, was := Value(), dAtA[..];
      assert m[..0] == [];
      i := 0;
      i := WriteBool(dAtA, i, 0x8, success, m, 0, was);
      i := WriteString(dAtA, i, 0x12, ipv4Addr, m, 1, was);
      i := WriteInt32(dAtA, i, 0x18, deviceNumber, m, 2, was);
      i := WriteString(dAtA, i, 0x22, message, m, 3, was);
      assert m[..4] == m;
    }

    method Marshal() returns (data: seq<byte>)
      ensures data == Encode(Value())
    {
      var size := Size();
      var dAtA := new byte[size];
      var n := MarshalTo(dAtA);
      data := dAtA[..n];
    }

    method Unmarshal(dAtA: seq<byte>) returns (err: Option<Error>)
      modifies this
      ensures Wire.Unmarshal(old(Value()), dAtA) == Parsed(Value(), err)
    {
      hide Wire.Unmarshal, Reached;
      ghost var m0 := Value();
      var iNdEx := 0;
      StartAndEnd(m0, dAtA, m0);
      while iNdEx < |dAtA|
        invariant iNdEx <= |dAtA| && Reached(m0, dAtA, Value(), iNdEx)
      {
        iNdEx, err := UnmarshalField(dAtA, iNdEx, m0);
        if err.Some? { return err; }
      }
      StartAndEnd(m0, dAtA, Value());
      return None;
    }

    /** One turn of the parsing loop. */
    method UnmarshalField(dAtA: seq<byte>, iNdEx: nat, ghost m0: Message) returns (next: nat, err: Option<Error>)
      requires iNdEx < |dAtA| && Reached(m0, dAtA, Value(), iNdEx)
      modifies this
      ensures if err.None? then iNdEx < next <= |dAtA| && Reached(m0, dAtA, Value(), next)
              else Stopped(m0, dAtA, Value(), err)
    {
      hide Wire.Unmarshal, AtField, Reached, Stopped, DistinctNums;
      ghost var m := Value();
      var fieldNum, wireType, body, e := ReadTag(dAtA, iNdEx, m0, m);
      if e.Some? { return body, e; }
      match fieldNum {
        case 1 =>
          success, next, err := ReadBool(wireType, dAtA, body, success, m0, m, 0, iNdEx);
          assert Value() == m[0 := Field(1, Bool(success))];
        case 2 =>
          ipv4Addr, next, err := ReadString(wireType, dAtA, body, ipv4Addr, m0, m, 1, iNdEx);
          assert Value() == m[1 := Field(2, Str(ipv4Addr))];
        case 3 =>
          deviceNumber, next, err := ReadInt32(wireType, dAtA, body, deviceNumber, m0, m, 2, iNdEx);
          assert Value() == m[2 := Field(3, Int32(deviceNumber))];
        case 4 =>
          message, next, err := ReadString(wireType, dAtA, body, message, m0, m, 3, iNdEx);
          assert Value() == m[3 := Field(4, Str(message))];
        case _ => next, err := SkipUnknownField(dAtA, iNdEx, m0, m, fieldNum, wireType, body);
      }
    }
  }

  /** The zero message depends on the type only. */
  lemma ZeroOfType(m: Message, n: Message)
    requires SameType(m, n)
    ensures Zero(m) == Zero(n)
  {}

  /** What the client decodes from a reply is what the daemon sent. */
  method Received(sent: AddNetworkReply) returns (got: AddNetworkReply, err: Option<Error>)
    ensures fresh(got) && err.None? && got.Value() == sent.Value()
  {
    var data := sent.Marshal();
    got := new AddNetworkReply();
    ZeroOfType(got.Value(), sent.Value());
    RoundTrip(sent.Value());
    err := got.Unmarshal(data);
  }
}
