/** The tamper-resistant value wrapper. A value is split by its codec into
    up to four 32-bit lanes; each used lane is stored XOR-ed with a random
    key, next to a mirror (lane ^ 0x5A5A5A5A) + salt in wrapping 32-bit
    arithmetic. Reading decodes, compares every used lane against its
    mirror (a mismatch raises the anti-cheat flag) and re-encrypts under
    fresh keys. C# ints are their 32-bit patterns here (`Bits.Word32`), so
    `+` wraps as the unchecked source does. */
module Secure {
  import opened Bits

  /** The constant every lane is XOR-ed with before the salt is added. */
  const TamperMask: Word32 := 0x5A5A_5A5A
  /** The wrapper's fixed lane capacity. */
  const Capacity: nat := 4

  /** A four-lane buffer, the stack span codecs read and write. */
  type Quad = s: seq<Word32> | |s| == 4 witness [0, 0, 0, 0]

  const Zeros: Quad := [0, 0, 0, 0]

  /** ISecureCodec<T>: how many lanes a value uses, and the conversions
      between a value and a zero-initialised four-lane buffer. */
  datatype Codec<!T> = Codec(lanes: nat, toLanes: T -> Quad, fromLanes: Quad -> T)

  /** What a codec must provide for the wrapper to give values back: at
      most four lanes, lanes past its count left at 0, and decoding undoes
      encoding. */
  ghost predicate ValidCodec<T(!new)>(c: Codec<T>) {
    c.lanes <= Capacity
    && (forall v, i :: c.lanes <= i < 4 ==> c.toLanes(v)[i] == 0)
    && (forall v :: c.fromLanes(c.toLanes(v)) == v)
  }

  /** A plain lane XOR-ed with the tamper mask. */
  function Masked(raw: Word32): Word32 { Xor32(raw, TamperMask) }

  /** The mirror kept for a plain lane: the masked lane plus the salt,
      wrapping. */
  function Mirror(raw: Word32, salt: Word32): Word32 {
    Add32(Masked(raw), salt)
  }

  /** Under a fixed salt, different lanes have different mirrors, so a
      changed lane cannot keep its old mirror. */
  lemma MirrorInjective(a: Word32, b: Word32, salt: Word32)
    requires Mirror(a, salt) == Mirror(b, salt)
    ensures a == b
  {
    Add32Cancel(Masked(a), Masked(b), salt);
    XorInjective(a, b, TamperMask);
  }

  /** A lane XOR-ed with its key, for storing. */
  function Encrypt(raw: Word32, key: Word32): Word32 { Xor32(raw, key) }

  /** A stored lane XOR-ed with its key, for reading. */
  function Decrypt(enc: Word32, key: Word32): Word32 { Xor32(enc, key) }

  /** Decryption undoes encryption under the same key. */
  lemma XorCancel(a: Word32, k: Word32)
    ensures Decrypt(Encrypt(a, k), k) == a
  {
    XorSelfInverse(a, k);
  }

  /** Different stored lanes decrypt to different lanes under one key. */
  lemma DecryptInjective(e: Word32, x: Word32, k: Word32)
    ensures Decrypt(x, k) == Decrypt(e, k) <==> x == e
  {
    if Decrypt(x, k) == Decrypt(e, k) {
      XorInjective(x, e, k);
    }
  }

  /** The lanes below n taken from `given`, the others from `kept`. */
  function Used(n: nat, given: Quad, kept: Quad): (r: Quad)
    ensures forall i :: 0 <= i < 4 ==> r[i] == (if i < n then given[i] else kept[i])
  {
    seq(4, i requires 0 <= i < 4 => if i < n then given[i] else kept[i])
  }

  function EncryptAll(raw: Quad, keys: Quad): (r: Quad)
    ensures forall i :: 0 <= i < 4 ==> r[i] == Encrypt(raw[i], keys[i])
  {
    seq(4, i requires 0 <= i < 4 => Encrypt(raw[i], keys[i]))
  }

  function DecryptAll(enc: Quad, keys: Quad): (r: Quad)
    ensures forall i :: 0 <= i < 4 ==> r[i] == Decrypt(enc[i], keys[i])
  {
    seq(4, i requires 0 <= i < 4 => Decrypt(enc[i], keys[i]))
  }

  function Mirrors(raw: Quad, salt: Word32): (r: Quad)
    ensures forall i :: 0 <= i < 4 ==> r[i] == Mirror(raw[i], salt)
  {
    seq(4, i requires 0 <= i < 4 => Mirror(raw[i], salt))
  }

  /** The stored state of a Secure<T>: encrypted lanes, keys, mirrors,
      salt and the number of lanes in use, kept in a byte. */
  datatype Store = Store(enc: Quad, key: Quad, fake: Quad, salt: Word32, lanes: nat)

  /** Every used lane still matches its mirror. */
  predicate Consistent(s: Store) {
    forall i :: 0 <= i < 4 && i < s.lanes ==> Mirror(Decrypt(s.enc[i], s.key[i]), s.salt) == s.fake[i]
  }

  /** The lane count as the wrapper's byte field keeps it. */
  function ByteOf(n: nat): (b: nat)
    ensures b <= n && b < 256
    ensures n < 256 ==> b == n
  {
    n % 256
  }

  /** The setter: every used lane is re-encrypted under a fresh key and
      its mirror refreshed with the salt the wrapper already has; lanes
      past the codec's count keep whatever they held. */
  function Write<T>(c: Codec<T>, s: Store, v: T, keys: Quad): (r: Store)
    ensures r.salt == s.salt && r.lanes == ByteOf(c.lanes)
    ensures forall i :: 0 <= i < 4 && i < c.lanes ==>
      r.key[i] == keys[i] && r.fake[i] == Mirror(c.toLanes(v)[i], s.salt)
    ensures forall i :: c.lanes <= i < 4 ==>
      r.enc[i] == s.enc[i] && r.key[i] == s.key[i] && r.fake[i] == s.fake[i]
    ensures forall i :: 0 <= i < 4 && i < c.lanes ==> Decrypt(r.enc[i], r.key[i]) == c.toLanes(v)[i]
    ensures Consistent(r)
  {
    var raw := c.toLanes(v);
    var r := s.(enc := Used(c.lanes, EncryptAll(raw, keys), s.enc), key := Used(c.lanes, keys, s.key),
                fake := Used(c.lanes, Mirrors(raw, s.salt), s.fake), lanes := ByteOf(c.lanes));
    forall i | 0 <= i < 4 && i < c.lanes
      ensures Decrypt(r.enc[i], r.key[i]) == raw[i]
    {
      XorCancel(raw[i], keys[i]);
    }
    r
  }

  /** The constructor. `salt` stands for the clock ticks and `keys` for
      the generator's draws, one per used lane. Everything starts at zero
      and the used lanes are then filled exactly as the setter fills them. */
  function Construct<T>(c: Codec<T>, v: T, salt: Word32, keys: Quad): (s: Store)
    ensures s.salt == salt && s.lanes == ByteOf(c.lanes)
    ensures forall i :: c.lanes <= i < 4 ==> s.enc[i] == 0 && s.key[i] == 0 && s.fake[i] == 0
    ensures forall i :: 0 <= i < 4 && i < c.lanes ==>
      s.key[i] == keys[i] && s.fake[i] == Mirror(c.toLanes(v)[i], salt)
    ensures forall i :: 0 <= i < 4 && i < c.lanes ==> Decrypt(s.enc[i], s.key[i]) == c.toLanes(v)[i]
    ensures Consistent(s)
  {
    Write(c, Blank(salt), v, keys)
  }

  /** The all-zero store the constructor starts from. */
  function Blank(salt: Word32): Store {
    Store(Zeros, Zeros, Zeros, salt, 0)
  }

  /** What a read yields: the value, how many times the anti-cheat flag
      was raised (once per mismatching lane), and the store after its keys
      were rolled. */
  datatype Read<T> = Read(value: T, flags: nat, store: Store)

  /** The plain lanes a read decodes: used lanes decrypted, others 0. */
  function Plain(s: Store): (raw: Quad)
    ensures forall i :: 0 <= i < 4 ==> raw[i] == (if i < s.lanes then Decrypt(s.enc[i], s.key[i]) else 0)
  {
    Used(s.lanes, DecryptAll(s.enc, s.key), Zeros)
  }

  /** Whether lane i is in use and no longer matches its mirror. */
  predicate Mismatch(s: Store, raw: Quad, i: nat)
    requires i < 4
  {
    i < s.lanes && Mirror(raw[i], s.salt) != s.fake[i]
  }

  /** The getter. `keys` are the generator's draws for the re-encryption. */
  function Get<T>(c: Codec<T>, s: Store, keys: Quad): (r: Read<T>)
    ensures r.store.fake == s.fake && r.store.salt == s.salt && r.store.lanes == s.lanes
    ensures forall i :: s.lanes <= i < 4 ==> r.store.enc[i] == s.enc[i] && r.store.key[i] == s.key[i]
    ensures forall i :: 0 <= i < 4 && i < s.lanes ==> r.store.key[i] == keys[i]
    ensures r.flags <= 4 && r.flags <= s.lanes
  {
    var raw := Plain(s);
    var flags := Bit(Mismatch(s, raw, 0)) + Bit(Mismatch(s, raw, 1)) + Bit(Mismatch(s, raw, 2))
                 + Bit(Mismatch(s, raw, 3));
    Read(c.fromLanes(raw), flags,
         s.(enc := Used(s.lanes, EncryptAll(raw, keys), s.enc), key := Used(s.lanes, keys, s.key)))
  }

  /** The flag is raised exactly when some used lane no longer matches its
      mirror. */
  lemma TamperedIffInconsistent<T>(c: Codec<T>, s: Store, keys: Quad)
    ensures Get(c, s, keys).flags > 0 <==> !Consistent(s)
  {
    var raw := Plain(s);
    assert forall i :: 0 <= i < 4 && i < s.lanes ==> raw[i] == Decrypt(s.enc[i], s.key[i]);
  }

  /** Rolling the keys changes neither the plain lanes nor their agreement
      with the mirrors, so every later read decodes the same value and
      raises the flag exactly when this one did. */
  lemma ReadIsStable<T>(c: Codec<T>, s: Store, keys: Quad, keys': Quad)
    ensures var first := Get(c, s, keys);
      var second := Get(c, first.store, keys');
      second.value == first.value && second.flags == first.flags
  {
    var first := Get(c, s, keys);
    var t := first.store;
    var raw := Plain(s);
    forall i | 0 <= i < 4 && i < t.lanes
      ensures Decrypt(t.enc[i], t.key[i]) == raw[i]
    {
      XorCancel(raw[i], keys[i]);
    }
    PlainOfSealed(t, raw);
    PlainOfSealed(s, raw);
    TamperedIffInconsistent(c, s, keys);
    TamperedIffInconsistent(c, t, keys');
  }

  /** A store whose used lanes decrypt to `raw` reads `raw` there and 0
      elsewhere. */
  lemma PlainOfSealed(s: Store, raw: Quad)
    requires forall i :: 0 <= i < 4 && i < s.lanes ==> Decrypt(s.enc[i], s.key[i]) == raw[i]
    ensures Plain(s) == Used(s.lanes, raw, Zeros)
  {
    var p := Plain(s);
    var q := Used(s.lanes, raw, Zeros);
    forall i | 0 <= i < 4
      ensures p[i] == q[i]
    {
      if i < s.lanes {
        assert p[i] == Decrypt(s.enc[i], s.key[i]);
      }
    }
  }

  /** Lanes past the codec's count are 0, so padding its lanes with zeros
      changes nothing. */
  lemma PaddedLanes<T(!new)>(c: Codec<T>, v: T)
    requires ValidCodec(c)
    ensures Used(c.lanes, c.toLanes(v), Zeros) == c.toLanes(v)
  {
    var raw := c.toLanes(v);
    var q := Used(c.lanes, raw, Zeros);
    forall i | 0 <= i < 4
      ensures q[i] == raw[i]
    {
    }
  }

  /** Reading a freshly constructed wrapper gives back the value it was
      built from and never raises the flag, whatever keys, salt or later
      draws are used. */
  lemma ConstructThenGet<T(!new)>(c: Codec<T>, v: T, salt: Word32, keys: Quad, keys': Quad)
    requires ValidCodec(c)
    ensures var r := Get(c, Construct(c, v, salt, keys), keys');
      r.value == v && r.flags == 0
  {
    var s := Construct(c, v, salt, keys);
    assert s.lanes == c.lanes;
    PlainOfSealed(s, c.toLanes(v));
    PaddedLanes(c, v);
    TamperedIffInconsistent(c, s, keys');
  }

  /** Reading after the setter gives back the value just set and never
      raises the flag, whatever the wrapper held before. */
  lemma WriteThenGet<T(!new)>(c: Codec<T>, s: Store, v: T, keys: Quad, keys': Quad)
    requires ValidCodec(c)
    ensures var r := Get(c, Write(c, s, v, keys), keys');
      r.value == v && r.flags == 0
  {
    var w := Write(c, s, v, keys);
    assert w.lanes == c.lanes;
    PlainOfSealed(w, c.toLanes(v));
    PaddedLanes(c, v);
    TamperedIffInconsistent(c, w, keys');
  }

  /** The decoded value does not depend on the keys drawn at construction
      or at the read, even for a codec that does not round-trip, and the
      mirrors do not depend on the keys at all. */
  lemma KeysDoNotMatter<T>(c: Codec<T>, v: T, salt: Word32, keys1: Quad, keys2: Quad, read1: Quad, read2: Quad)
    ensures Get(c, Construct(c, v, salt, keys1), read1).value == Get(c, Construct(c, v, salt, keys2), read2).value
    ensures Construct(c, v, salt, keys1).fake == Construct(c, v, salt, keys2).fake
  {
    var s1 := Construct(c, v, salt, keys1);
    var s2 := Construct(c, v, salt, keys2);
    PlainOfSealed(s1, c.toLanes(v));
    PlainOfSealed(s2, c.toLanes(v));
    assert Plain(s1) == Plain(s2);
    forall i | 0 <= i < 4
      ensures s1.fake[i] == s2.fake[i]
    {
    }
  }

  /** A lane that matched its mirror no longer does once its encrypted
      form is replaced by a different one under the same key. */
  lemma LaneChangeBreaksMirror(e: Word32, x: Word32, k: Word32, salt: Word32)
    requires x != e
    ensures Mirror(Decrypt(x, k), salt) != Mirror(Decrypt(e, k), salt)
  {
    DecryptInjective(e, x, k);
    if Mirror(Decrypt(x, k), salt) == Mirror(Decrypt(e, k), salt) {
      MirrorInjective(Decrypt(x, k), Decrypt(e, k), salt);
      assert false;
    }
  }

  /** Overwriting a used encrypted lane, leaving its key and mirror alone,
      is caught by the next read. */
  lemma ChangedLaneIsFlagged<T>(c: Codec<T>, s: Store, j: nat, x: Word32, keys: Quad)
    requires Consistent(s)
    requires j < 4 && j < s.lanes && x != s.enc[j]
    ensures Get(c, s.(enc := s.enc[j := x]), keys).flags > 0
  {
    var t := s.(enc := s.enc[j := x]);
    LaneChangeBreaksMirror(s.enc[j], x, s.key[j], s.salt);
    assert t.enc[j] == x;
    TamperedIffInconsistent(c, t, keys);
  }

  /** Overwriting a used mirror with a different word is caught by the
      next read. */
  lemma ChangedMirrorIsFlagged<T>(c: Codec<T>, s: Store, j: nat, x: Word32, keys: Quad)
    requires Consistent(s)
    requires j < 4 && j < s.lanes && x != s.fake[j]
    ensures Get(c, s.(fake := s.fake[j := x]), keys).flags > 0
  {
    var t := s.(fake := s.fake[j := x]);
    assert Mirror(Decrypt(t.enc[j], t.key[j]), t.salt) != t.fake[j];
    TamperedIffInconsistent(c, t, keys);
  }
}
