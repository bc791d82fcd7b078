/** Copying the addresses of a network device: a request is built in a fixed buffer and sent once per address. */
module NetDevice {
  import opened Common
  import opened Netlink

  const NLMSG_HEADER := 16
  const IFADDR_SIZE := 8
  const REQUEST_SIZE := 32

  /** The fixed part of an address. */
  datatype Address = Address(family: nat, prefixLength: nat, flags: nat, scope: nat, index: nat)

  /** An address as it was captured: the fixed part, and the bytes of the attributes behind it. */
  datatype Captured = Captured(address: Address, rta: seq<byte>)

  datatype Sent = Sent(address: Address, attrs: seq<Attr>)

  /** Bytes written into a buffer. */
  function Put(b: seq<byte>, at: nat, s: seq<byte>): (c: seq<byte>)
    requires at + |s| <= |b|
    ensures |c| == |b| && c[at..at + |s|] == s && c[..at] == b[..at]
  {
    b[..at] + s + b[at + |s|..]
  }

  /** A request: the attributes start at `start`, and `length` is the nlmsg_len of its header. */
  class Request {
    const buffer: array<byte>
    var start: nat
    var length: nat

    ghost predicate Valid()
      reads this, buffer
    {
      && REQUEST_SIZE <= buffer.Length < 0x1_0000
      && start <= length <= buffer.Length && start % 4 == 0 && length % 4 == 0
      && Exact(buffer[..], start, length - start)
    }

    /** What the receiver of the request finds in it. */
    function Attrs(): seq<Attr>
      requires Valid()
      reads this, buffer
    {
      Walk(buffer[..], start, length - start)
    }

    constructor (size: nat)
      requires REQUEST_SIZE <= size < 0x1_0000
      ensures Valid() && buffer.Length == size && fresh(buffer) && Attrs() == []
    {
      buffer := new byte[size];
      start, length := NLMSG_HEADER, NLMSG_HEADER;
    }

    /** reset_request: an empty list of attributes behind a fixed part of this size. */
    method Reset(fixedSize: nat)
      requires REQUEST_SIZE <= buffer.Length < 0x1_0000 && fixedSize <= REQUEST_SIZE - NLMSG_HEADER &&
        fixedSize % 4 == 0
      modifies this, buffer
      ensures Valid() && start == length == NLMSG_HEADER + fixedSize && Attrs() == []
    {
      forall i | 0 <= i < REQUEST_SIZE {
        buffer[i] := 0;
      }
      start, length := NLMSG_HEADER + fixedSize, NLMSG_HEADER + fixedSize;
    }

    /** recv: an answer overwrites the buffer. */
    method Receive(answer: seq<byte>)
      modifies buffer
      ensures forall i :: 0 <= i < buffer.Length ==> buffer[i] == if i < |answer| then answer[i] else old(buffer[i])
    {
      forall i | 0 <= i < buffer.Length && i < |answer| {
        buffer[i] := answer[i];
      }
    }

    method Write(at: nat, s: seq<byte>)
      requires at + |s| <= buffer.Length
      modifies buffer
      ensures buffer[..] == Put(old(buffer[..]), at, s)
    {
      forall i | 0 <= i < |s| {
        buffer[at + i] := s[i];
      }
      assert buffer[..] == Put(old(buffer[..]), at, s);
    }

    /** append_rtattr: the attribute comes last, or there is no room for it and nothing changes. */
    method Append(kind: nat, data: seq<byte>) returns (ok: bool)
      requires Valid() && kind < 0x1_0000
      modifies this`length, buffer
      ensures Valid()
      ensures ok <==> old(length) + Size(Attr(kind, data)) <= buffer.Length
      ensures ok ==> length == old(length) + Size(Attr(kind, data)) && Attrs() == old(Attrs()) + [Attr(kind, data)]
      ensures ok ==> buffer[old(length)..old(length) + 4 + |data|] == Bytes(Attr(kind, data))
      ensures !ok ==> length == old(length) && Attrs() == old(Attrs())
    {
      hide Exact, Walk, Ok, At, U16At;
      var len := RTA_HEADER + |data|;
      if Align(length) + Align(len) > buffer.Length {
        return false;
      }
      ghost var a, b, end := Attr(kind, data), buffer[..], Align(length);
      Write(Align(length), U16(len) + U16(kind) + data);
      Appended(b, buffer[..], start, end, a);
      length := Align(length) + Align(len);
      ok := true;
    }

    /** Every attribute of the captured bytes is appended, as long as there is room. */
    method AppendAll(rta: seq<byte>) returns (ok: bool)
      requires Valid()
      modifies this`length, buffer
      ensures Valid()
      ensures ok <==> old(length) + SizeOfAll(Walk(rta, 0, |rta|)) <= buffer.Length
      ensures ok ==> Attrs() == old(Attrs()) + Walk(rta, 0, |rta|)
    {
      hide Exact, At, U16At, Align, Size, Walk, Ok, SizeOfAll;
      var at: nat, len: int := 0, |rta|;
      ghost var first, all, done := Attrs(), Walk(rta, 0, |rta|), [];
      ghost var rest := all;
      while Ok(rta, at, len)
        invariant at + len == |rta| && Valid() && rest == Walk(rta, at, len)
        invariant Attrs() == first + done && all == done + rest
        invariant old(length) + SizeOfAll(all) == length + SizeOfAll(rest)
        decreases len
      {
        WalkIs(rta, at, len);
        var a := At(rta, at, len);
        var n := Align(U16At(rta, at));
        OneMore(first, done, a, Walk(rta, at + n, len - n));
        ok := Append(a.kind, a.data);
        if !ok {
          return false;
        }
        at, len := at + n, len - n;
        done, rest := done + [a], Walk(rta, at, len);
      }
      WalkIs(rta, at, len);
      NoSize(done);
      ok := true;
    }
  }

  /** How much room one more attribute takes. */
  lemma OneMore(first: seq<Attr>, done: seq<Attr>, a: Attr, rest: seq<Attr>)
    ensures first + done + [a] == first + (done + [a]) && done + ([a] + rest) == done + [a] + rest
    ensures SizeOfAll([a] + rest) == Size(a) + SizeOfAll(rest)
  {
    hide Size;
    assert ([a] + rest)[1..] == rest;
  }

  /** Writing an attribute behind a list that ends exactly. */
  lemma Appended(b: seq<byte>, c: seq<byte>, start: nat, end: nat, a: Attr)
    requires start <= end && Fits(a) && end + Size(a) <= |b| && Exact(b, start, end - start) &&
      c == Put(b, end, Bytes(a))
    ensures Walk(c, start, end - start + Size(a)) == Walk(b, start, end - start) + [a] &&
      Exact(c, start, end - start + Size(a))
  {
    hide Put, Agree, At, U16At, Bytes, Exact, Walk, Ok;
    PutAgrees(b, end, Bytes(a), start);
    AtBytes(c, end, a);
    WalkExtend(b, c, start, end - start, Size(a));
  }

  lemma PutAgrees(b: seq<byte>, at: nat, s: seq<byte>, start: nat)
    requires at + |s| <= |b|
    ensures Agree(b, Put(b, at, s), start, at)
  {
  }

  lemma NoSize(done: seq<Attr>)
    ensures SizeOfAll([]) == 0 && done + [] == done
  {
  }

  /** copy_ip_addr: what is behind the fixed part of a message of this length. */
  function Capture(address: Address, message: seq<byte>, length: nat): Captured
    requires NLMSG_HEADER + IFADDR_SIZE <= length <= |message|
  {
    Captured(address, message[NLMSG_HEADER + IFADDR_SIZE..length])
  }

  /** A captured address has the attributes of the message it comes from. */
  lemma CaptureKeepsAttrs(address: Address, message: seq<byte>, length: nat)
    requires NLMSG_HEADER + IFADDR_SIZE <= length <= |message|
    ensures var from := NLMSG_HEADER + IFADDR_SIZE;
            var rta := Capture(address, message, length).rta;
            Walk(rta, 0, |rta|) == Walk(message, from, length - from)
  {
    var from := NLMSG_HEADER + IFADDR_SIZE;
    WalkShift(message, Capture(address, message, length).rta, from, from, length);
  }

  function Expected(ip: Captured, index: nat): Sent {
    Sent(ip.address.(index := index), Walk(ip.rta, 0, |ip.rta|))
  }

  /** The address is the captured one, with all its attributes, on another device. */
  predicate SameAddress(ip: Captured, sent: Sent, index: nat) {
    && sent.address.index == index
    && sent.address.family == ip.address.family && sent.address.prefixLength == ip.address.prefixLength
    && sent.address.flags == ip.address.flags && sent.address.scope == ip.address.scope
    && sent.attrs == Walk(ip.rta, 0, |ip.rta|)
  }

  lemma ExpectedIsSame(ip: Captured, index: nat)
    ensures SameAddress(ip, Expected(ip, index), index)
  {
  }

  function AllExpected(ips: seq<Captured>, index: nat): (r: seq<Sent>)
    ensures |r| == |ips| && forall i :: 0 <= i < |ips| ==> r[i] == Expected(ips[i], index)
  {
    if ips == [] then [] else [Expected(ips[0], index)] + AllExpected(ips[1..], index)
  }

  /** The attributes of this address fit into the buffer. */
  predicate HasRoom(ip: Captured, size: nat) {
    NLMSG_HEADER + IFADDR_SIZE + SizeOfAll(Walk(ip.rta, 0, |ip.rta|)) <= size
  }

  /** One address: the request for the new device with the captured attributes, if there is room for them. */
  method Build(request: Request, index: nat, ip: Captured) returns (ok: bool, sent: Sent)
    requires REQUEST_SIZE <= request.buffer.Length < 0x1_0000
    modifies request, request.buffer
    ensures ok <==> HasRoom(ip, request.buffer.Length)
    ensures ok ==> sent == Expected(ip, index)
  {
    hide Walk, SizeOfAll;
    request.Reset(IFADDR_SIZE);
    ok := request.AppendAll(ip.rta);
    sent := Sent(ip.address.(index := index), request.Attrs());
    OneExpected(ip, index);
  }

  /**
  configure_ip_addresses: each address is sent again with exactly the attributes that were captured, for the new
  device; `kernel` says of each request whether it was acknowledged, and with which bytes.
  */
  method ConfigureAddresses(request: Request, index: nat, ips: seq<Captured>, kernel: nat -> (bool, seq<byte>))
    returns (ok: bool, sent: seq<Sent>)
    requires REQUEST_SIZE <= request.buffer.Length < 0x1_0000
    modifies request, request.buffer
    ensures sent <= AllExpected(ips, index)
    ensures ok ==> sent == AllExpected(ips, index)
    ensures forall i :: 0 <= i < |sent| ==> SameAddress(ips[i], sent[i], index)
    ensures ok <==> forall i :: 0 <= i < |ips| ==> HasRoom(ips[i], request.buffer.Length) && kernel(i).0
    ensures forall i :: 0 <= i < |sent| ==> HasRoom(ips[i], request.buffer.Length) && (i < |sent| - 1 ==> kernel(i).0)
    ensures !ok ==> (|sent| < |ips| && !HasRoom(ips[|sent|], request.buffer.Length)) ||
                    (|sent| > 0 && !kernel(|sent| - 1).0)
  {
    hide Expected, HasRoom, AllExpected, SameAddress;
    ghost var all := AllExpected(ips, index);
    sent := [];
    for i := 0 to |ips|
      invariant sent == all[..i] && forall k :: 0 <= k < i ==> SameAddress(ips[k], sent[k], index)
      invariant forall k :: 0 <= k < i ==> HasRoom(ips[k], request.buffer.Length) && kernel(k).0
    {
      var message;
      ok, message := Build(request, index, ips[i]);
      if !ok {
        return;
      }
      assert all[..i + 1] == all[..i] + [all[i]];
      ExpectedIsSame(ips[i], index);
      sent := sent + [message];
      request.Receive(kernel(i).1);
      if !kernel(i).0 {
        return false, sent;
      }
    }
    ok := true;
  }

  lemma OneExpected(ip: Captured, index: nat)
    ensures Expected(ip, index) == Sent(ip.address.(index := index), [] + Walk(ip.rta, 0, |ip.rta|))
  {
    assert [] + Walk(ip.rta, 0, |ip.rta|) == Walk(ip.rta, 0, |ip.rta|);
  }
}
