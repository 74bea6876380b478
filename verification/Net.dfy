/** Bytes, big-endian words and the two lengths of a Go `net.IP`. */
module Net {
  import opened Wrappers

  type Byte = b: int | 0 <= b < 256
  type Word = w: int | 0 <= w < 65536
  type Bytes = seq<Byte>

  /** An IPv4 address. */
  type Address = a: Bytes | |a| == 4 witness [0, 0, 0, 0]

  /** A 16-bit field in network byte order. */
  function PutWord(w: Word): (b: Bytes)
    ensures |b| == 2 && b[0] == w / 256 && b[1] == w % 256
  {
    [w / 256, w % 256]
  }

  /** Reads back the field that PutWord wrote at offset i. */
  function WordAt(b: Bytes, i: nat): (w: Word)
    requires i + 1 < |b|
  {
    (b[i] as int) * 256 + b[i + 1]
  }

  lemma PutWordReads(w: Word, pre: Bytes, post: Bytes)
    ensures WordAt(pre + PutWord(w) + post, |pre|) == w
  {
    var b := pre + PutWord(w) + post;
    assert b[|pre|] == w / 256 && b[|pre| + 1] == w % 256;
  }

  const V4_IN_V6_PREFIX: Bytes := [0, 0, 0, 0, 0, 0, 0, 0, 0, 0, 255, 255]

  /** net.IP.To4: four bytes stay, an IPv4-mapped sixteen are cut, anything else is not IPv4. */
  function To4(ip: Bytes): (r: Option<Bytes>)
    ensures r.Some? ==> |r.value| == 4
  {
    if |ip| == 4 then Some(ip)
    else if |ip| == 16 && ip[..12] == V4_IN_V6_PREFIX then Some(ip[12..])
    else None
  }

  /** Four bytes are the address; sixteen are one after ten zeros and two times 255; nothing else is. */
  lemma To4Forms(ip: Bytes)
    ensures |ip| == 4 ==> To4(ip) == Some(ip)
    ensures |ip| == 16 ==> (To4(ip).Some? <==> ip[10] == 255 && ip[11] == 255 && forall i | 0 <= i < 10 :: ip[i] == 0)
    ensures |ip| == 16 && To4(ip).Some? ==> To4(ip).value == ip[12..16]
    ensures |ip| != 4 && |ip| != 16 ==> To4(ip).None?
  {
    if |ip| == 16 {
      var head := ip[..12];
      assert forall i | 0 <= i < 12 :: head[i] == ip[i];
      if ip[10] == 255 && ip[11] == 255 && forall i | 0 <= i < 10 :: ip[i] == 0 {
        assert head == V4_IN_V6_PREFIX;
      }
    }
  }
}
