/** The beacon datagrams (crates/engine/src/beacon.rs): a broadcast announcement, or a probe or ack. */
module BeaconCodec {
  import opened Prelude

  type Byte = b: nat | b < 256

  const MAGIC: seq<Byte> := [0x55, 0x4C, 0x42, 0x31]
  const VERSION: Byte := 1
  const ANNOUNCE_LEN: nat := 39
  const NONCE_LEN: nat := 16
  const MAC_LEN: nat := 16
  const KINDED_LEN: nat := 72
  const KIND_PROBE: Byte := 1
  const KIND_ACK: Byte := 2

  datatype Kinded = Kinded(kind: Byte, nonce: seq<Byte>, mac: seq<Byte>)

  datatype Msg = Msg(pk: seq<Byte>, port: nat, kinded: Option<Kinded>)

  predicate Proper(m: Msg) {
    && |m.pk| == 32 && m.port < 0x1_0000
    && (m.kinded.Some? ==>
          && m.kinded.value.kind in {KIND_PROBE, KIND_ACK}
          && |m.kinded.value.nonce| == NONCE_LEN && |m.kinded.value.mac| == MAC_LEN)
  }

  /** The wire form of a message. */
  function Wire(m: Msg): (buf: seq<Byte>)
    requires Proper(m)
    ensures |buf| == if m.kinded.Some? then KINDED_LEN else ANNOUNCE_LEN
  {
    MAGIC + [VERSION] + m.pk + [m.port % 256, m.port / 256] +
    match m.kinded
    case None => []
    case Some(k) => [k.kind] + k.nonce + k.mac
  }

  function Decode(buf: seq<Byte>): Option<Msg> {
    if |buf| < ANNOUNCE_LEN || buf[0..4] != MAGIC || buf[4] != VERSION then None
    else
      var pk, port := buf[5..37], buf[37] as nat + 256 * (buf[38] as nat);
      if |buf| == ANNOUNCE_LEN then Some(Msg(pk, port, None))
      else if |buf| == KINDED_LEN && (buf[39] == KIND_PROBE || buf[39] == KIND_ACK) then
        Some(Msg(pk, port, Some(Kinded(buf[39], buf[40..56], buf[56..]))))
      else None
  }

  /** Decoding inverts encoding, and nothing else decodes: every accepted datagram is the wire form of
      the message it yields. */
  lemma DecodesExactlyWireForms(buf: seq<Byte>, m: Msg)
    ensures Decode(buf) == Some(m) <==> Proper(m) && buf == Wire(m)
  {
    if Proper(m) && buf == Wire(m) {
      assert buf[0..4] == MAGIC && buf[4] == VERSION && buf[5..37] == m.pk;
      assert buf[37] == m.port % 256 && buf[38] == m.port / 256;
      if m.kinded.Some? {
        assert buf[39] == m.kinded.value.kind && buf[40..56] == m.kinded.value.nonce && buf[56..] == m.kinded.value.mac;
      }
    }
    if Decode(buf) == Some(m) {
      assert m.port % 256 == buf[37] && m.port / 256 == buf[38];
      assert buf[..39] == MAGIC + [VERSION] + m.pk + [m.port % 256, m.port / 256];
      if m.kinded.Some? {
        var k := m.kinded.value;
        assert buf[39..] == [k.kind] + k.nonce + k.mac;
        assert buf == buf[..39] + buf[39..];
      } else {
        assert buf == buf[..39];
      }
    }
  }

  method Encode(pk: seq<Byte>, port: nat) returns (buf: array<Byte>)
    requires |pk| == 32 && port < 0x1_0000
    ensures fresh(buf) && buf[..] == Wire(Msg(pk, port, None))
  {
    buf := new Byte[ANNOUNCE_LEN](_ => 0);
    forall i | 0 <= i < 4 {
      buf[i] := MAGIC[i];
    }
    buf[4] := VERSION;
    forall i | 0 <= i < 32 {
      buf[5 + i] := pk[i];
    }
    buf[37], buf[38] := port % 256, port / 256;
    assert forall i :: 5 <= i < 37 ==> buf[i] == pk[i - 5];
  }

  method EncodeKinded(pk: seq<Byte>, port: nat, k: Kinded) returns (buf: array<Byte>)
    requires Proper(Msg(pk, port, Some(k)))
    ensures fresh(buf) && buf[..] == Wire(Msg(pk, port, Some(k)))
  {
    buf := new Byte[KINDED_LEN](_ => 0);
    var announce := Encode(pk, port);
    forall i | 0 <= i < ANNOUNCE_LEN {
      buf[i] := announce[i];
    }
    buf[ANNOUNCE_LEN] := k.kind;
    forall i | 0 <= i < NONCE_LEN {
      buf[40 + i] := k.nonce[i];
    }
    forall i | 0 <= i < MAC_LEN {
      buf[56 + i] := k.mac[i];
    }
    assert forall i :: 40 <= i < 56 ==> buf[i] == k.nonce[i - 40];
    assert forall i :: 56 <= i < 72 ==> buf[i] == k.mac[i - 56];
    assert buf[..39] == announce[..];
    assert buf[..] == announce[..] + ([k.kind] + k.nonce + k.mac);
  }
}
