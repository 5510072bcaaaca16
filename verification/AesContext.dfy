/** The cipher set up from 64 bytes of key material: one half for the data, one for the tweak. */
module AesContext {
  import opened Bits
  import opened AesTables
  import opened AesKeySchedule
  import opened AesXts
  import AesXtsInPlace

  /** The 240 bytes cut into fifteen round keys. */
  function Cut(w: seq<byte>): Schedule
    requires |w| == 240
  {
    seq<Block>(15, i requires 0 <= i < 15 => w[16 * i..16 * i + 16])
  }

  /** The schedule is the expansion of the key with the substitution table. */
  ghost predicate IsSchedule(key: seq<byte>, k: Schedule) {
    exists w: seq<byte> :: |w| == 240 && IsExpansion(key, w, Sbox) && k == Cut(w)
  }

  lemma ScheduleIsUnique(key: seq<byte>, k: Schedule, l: Schedule)
    requires IsSchedule(key, k) && IsSchedule(key, l)
    ensures k == l
  {
    var v: seq<byte> :| |v| == 240 && IsExpansion(key, v, Sbox) && k == Cut(v);
    var w: seq<byte> :| |w| == 240 && IsExpansion(key, w, Sbox) && l == Cut(w);
    ExpansionIsUnique(key, v, w, 240, Sbox);
    assert v == w;
  }

  /** Whatever is encrypted with some key material is decrypted with the same. */
  lemma SameMaterialDecrypts(material: seq<byte>, k1: Schedule, k2: Schedule, l1: Schedule, l2: Schedule, s: seq<byte>,
                             n: u64)
    requires |material| == 64
    requires IsSchedule(material[..32], k1) && IsSchedule(material[32..], k2)
    requires IsSchedule(material[..32], l1) && IsSchedule(material[32..], l2)
    ensures DecryptedSector(EncryptedSector(s, n, k1, k2), n, l1, l2) == s
  {
    ScheduleIsUnique(material[..32], k1, l1);
    ScheduleIsUnique(material[32..], k2, l2);
    SectorRoundTrip(s, n, k1, k2);
  }

  class Context {
    const key1: Schedule
    const key2: Schedule

    constructor (material: seq<byte>)
      requires |material| == 64
      ensures IsSchedule(material[..32], key1) && IsSchedule(material[32..], key2)
    {
      var w1 := Expand(material[..32], Sbox);
      var w2 := Expand(material[32..], Sbox);
      key1, key2 := Cut(w1), Cut(w2);
    }

    method EncryptSector(sector: array<byte>, n: u64)
      modifies sector
      ensures sector[..] == EncryptedSector(old(sector[..]), n, key1, key2)
    {
      AesXtsInPlace.EncryptSector(sector, n, key1, key2);
    }

    method DecryptSector(sector: array<byte>, n: u64)
      modifies sector
      ensures sector[..] == DecryptedSector(old(sector[..]), n, key1, key2)
    {
      AesXtsInPlace.DecryptSector(sector, n, key1, key2);
    }
  }
}
