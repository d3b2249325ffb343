/** The digest of "abc", the first example of section 7.3 of RFC 3174, through the specification of `Sha1`:
sixteen words of the message schedule and eight rounds at a time.
 */
module Sha1Example {
  import opened Sha1

  /** Names the rounds whose definition a proof needs. */
  predicate At(t: nat) { true }

  /** `w` is a message schedule. */
  ghost predicate IsSchedule(w: nat -> bv32) {
    forall t: nat {:trigger At(t)} :: At(t) && t >= 16 ==> w(t) == Rotate1(w(t - 3) ^ w(t - 8) ^ w(t - 14) ^ w(t - 16))
  }

  /** `v` are the working variables after each round. */
  ghost predicate AreRounds(v: nat -> Hash, w: nat -> bv32) {
    forall t: nat {:trigger At(t)} :: At(t) ==> v(t + 1) == Round(v(t), t, w(t))
  }

  // ------------------------------------------------------------------ the message schedule

  predicate Words0(w: nat -> bv32) {
    && w(0) == 0x61626380 && w(1) == 0x00000000 && w(2) == 0x00000000 && w(3) == 0x00000000
    && w(4) == 0x00000000 && w(5) == 0x00000000 && w(6) == 0x00000000 && w(7) == 0x00000000
    && w(8) == 0x00000000 && w(9) == 0x00000000 && w(10) == 0x00000000 && w(11) == 0x00000000
    && w(12) == 0x00000000 && w(13) == 0x00000000 && w(14) == 0x00000000 && w(15) == 0x00000018
  }

  predicate Words16(w: nat -> bv32) {
    && w(16) == 0xC2C4C700 && w(17) == 0x00000000 && w(18) == 0x00000030 && w(19) == 0x85898E01
    && w(20) == 0x00000000 && w(21) == 0x00000060 && w(22) == 0x0B131C03 && w(23) == 0x00000030
    && w(24) == 0x85898EC1 && w(25) == 0x16263806 && w(26) == 0x00000000 && w(27) == 0x00000180
    && w(28) == 0x2C4C700C && w(29) == 0x000000F0 && w(30) == 0x93AFB507 && w(31) == 0x5898E048
  }

  predicate Words32(w: nat -> bv32) {
    && w(32) == 0x8E9A9202 && w(33) == 0x00000600 && w(34) == 0xB131C0F0 && w(35) == 0x16263BC6
    && w(36) == 0x4EBED41E && w(37) == 0x626380A1 && w(38) == 0x16263806 && w(39) == 0x000018C0
    && w(40) == 0xD2E138C4 && w(41) == 0x00000F00 && w(42) == 0x3AFB5079 && w(43) == 0x898E04E5
    && w(44) == 0xE2BA3C2B && w(45) == 0x000060C0 && w(46) == 0x053A37CD && w(47) == 0x74458547
  }

  predicate Words48(w: nat -> bv32) {
    && w(48) == 0xDA9415ED && w(49) == 0x26380A16 && w(50) == 0x626383A1 && w(51) == 0x4EBF54DE
    && w(52) == 0x3835B44B && w(53) == 0x0000F600 && w(54) == 0x1E84C7A3 && w(55) == 0x98E04D98
    && w(56) == 0x651D16A0 && w(57) == 0x62658CA1 && w(58) == 0x458544D6 && w(59) == 0x44584CB7
    && w(60) == 0x7BA06619 && w(61) == 0x6380AEA2 && w(62) == 0x0AE55269 && w(63) == 0x627B49A1
  }

  predicate Words64(w: nat -> bv32) {
    && w(64) == 0x7CD45C9D && w(65) == 0x000F0000 && w(66) == 0xFB50753A && w(67) == 0xEC6765E8
    && w(68) == 0xBA3C2BE2 && w(69) == 0x0060C000 && w(70) == 0x3A37CD05 && w(71) == 0x458546F4
    && w(72) == 0xB8599DD6 && w(73) == 0x380A1A26 && w(74) == 0x01E02203 && w(75) == 0xE7CC3456
    && w(76) == 0xE6E60B69 && w(77) == 0x00F60A00 && w(78) == 0x5795EF4F && w(79) == 0x822E0879
  }

  lemma Expand16(w: nat -> bv32)
    requires IsSchedule(w) && Words0(w)
    ensures Words16(w)
  {
    assert At(16) && At(17) && At(18) && At(19) && At(20) && At(21) && At(22) && At(23);
    assert At(24) && At(25) && At(26) && At(27) && At(28) && At(29) && At(30) && At(31);
  }

  lemma Expand32(w: nat -> bv32)
    requires IsSchedule(w) && Words16(w)
    ensures Words32(w)
  {
    assert At(32) && At(33) && At(34) && At(35) && At(36) && At(37) && At(38) && At(39);
    assert At(40) && At(41) && At(42) && At(43) && At(44) && At(45) && At(46) && At(47);
  }

  lemma Expand48(w: nat -> bv32)
    requires IsSchedule(w) && Words32(w)
    ensures Words48(w)
  {
    assert At(48) && At(49) && At(50) && At(51) && At(52) && At(53) && At(54) && At(55);
    assert At(56) && At(57) && At(58) && At(59) && At(60) && At(61) && At(62) && At(63);
  }

  lemma Expand64(w: nat -> bv32)
    requires IsSchedule(w) && Words48(w)
    ensures Words64(w)
  {
    assert At(64) && At(65) && At(66) && At(67) && At(68) && At(69) && At(70) && At(71);
    assert At(72) && At(73) && At(74) && At(75) && At(76) && At(77) && At(78) && At(79);
  }

  // ------------------------------------------------------------------ the rounds

  lemma Rounds0(v: nat -> Hash, w: nat -> bv32)
    requires AreRounds(v, w) && Words0(w)
    requires v(0) == Hash(0x67452301, 0xEFCDAB89, 0x98BADCFE, 0x10325476, 0xC3D2E1F0)
    ensures v(8) == Hash(0x9E8C07D4, 0x993E30C1, 0x0FF1F290, 0xB3F52677, 0xF3763846)
  {
    assert At(0) && At(1) && At(2) && At(3) && At(4) && At(5) && At(6) && At(7);
  }

  lemma Rounds8(v: nat -> Hash, w: nat -> bv32)
    requires AreRounds(v, w) && Words0(w)
    requires v(8) == Hash(0x9E8C07D4, 0x993E30C1, 0x0FF1F290, 0xB3F52677, 0xF3763846)
    ensures v(16) == Hash(0x20BDD62F, 0x196BEE77, 0x644A3DA5, 0x1181ED99, 0x18C623F9)
  {
    assert At(8) && At(9) && At(10) && At(11) && At(12) && At(13) && At(14) && At(15);
  }

  lemma Rounds16(v: nat -> Hash, w: nat -> bv32)
    requires AreRounds(v, w) && Words16(w)
    requires v(16) == Hash(0x20BDD62F, 0x196BEE77, 0x644A3DA5, 0x1181ED99, 0x18C623F9)
    ensures v(24) == Hash(0xD541F12D, 0x21283486, 0x0CE88EFF, 0x868DEC32, 0x7F67875F)
  {
    assert At(16) && At(17) && At(18) && At(19) && At(20) && At(21) && At(22) && At(23);
  }

  lemma Rounds24(v: nat -> Hash, w: nat -> bv32)
    requires AreRounds(v, w) && Words16(w)
    requires v(24) == Hash(0xD541F12D, 0x21283486, 0x0CE88EFF, 0x868DEC32, 0x7F67875F)
    ensures v(32) == Hash(0x3B845D33, 0x1267B407, 0x717EEBD7, 0xA0DC2D4B, 0xD2AA1365)
  {
    assert At(24) && At(25) && At(26) && At(27) && At(28) && At(29) && At(30) && At(31);
  }

  lemma Rounds32(v: nat -> Hash, w: nat -> bv32)
    requires AreRounds(v, w) && Words32(w)
    requires v(32) == Hash(0x3B845D33, 0x1267B407, 0x717EEBD7, 0xA0DC2D4B, 0xD2AA1365)
    ensures v(40) == Hash(0x32DE1CBA, 0x4C986405, 0xF718E5CF, 0x03D447F6, 0xF72EEC32)
  {
    assert At(32) && At(33) && At(34) && At(35) && At(36) && At(37) && At(38) && At(39);
  }

  lemma Rounds40(v: nat -> Hash, w: nat -> bv32)
    requires AreRounds(v, w) && Words32(w)
    requires v(40) == Hash(0x32DE1CBA, 0x4C986405, 0xF718E5CF, 0x03D447F6, 0xF72EEC32)
    ensures v(48) == Hash(0xBEAD02CA, 0xA01B846C, 0x8714787C, 0x503CA382, 0xFB86C6AB)
  {
    assert At(40) && At(41) && At(42) && At(43) && At(44) && At(45) && At(46) && At(47);
  }

  lemma Rounds48(v: nat -> Hash, w: nat -> bv32)
    requires AreRounds(v, w) && Words48(w)
    requires v(48) == Hash(0xBEAD02CA, 0xA01B846C, 0x8714787C, 0x503CA382, 0xFB86C6AB)
    ensures v(56) == Hash(0x5E6456AF, 0x7B71F76D, 0x09FA7C76, 0x792410DB, 0x8E11EB59)
  {
    assert At(48) && At(49) && At(50) && At(51) && At(52) && At(53) && At(54) && At(55);
  }

  lemma Rounds56(v: nat -> Hash, w: nat -> bv32)
    requires AreRounds(v, w) && Words48(w)
    requires v(56) == Hash(0x5E6456AF, 0x7B71F76D, 0x09FA7C76, 0x792410DB, 0x8E11EB59)
    ensures v(64) == Hash(0x6B61C9E1, 0xB66C020B, 0x9523272C, 0xF5D5B051, 0x8FD4B796)
  {
    assert At(56) && At(57) && At(58) && At(59) && At(60) && At(61) && At(62) && At(63);
  }

  lemma Rounds64(v: nat -> Hash, w: nat -> bv32)
    requires AreRounds(v, w) && Words64(w)
    requires v(64) == Hash(0x6B61C9E1, 0xB66C020B, 0x9523272C, 0xF5D5B051, 0x8FD4B796)
    ensures v(72) == Hash(0x39859DE7, 0xC199F8C7, 0x8FC96230, 0x125C24F0, 0xDE37534A)
  {
    assert At(64) && At(65) && At(66) && At(67) && At(68) && At(69) && At(70) && At(71);
  }

  lemma Rounds72(v: nat -> Hash, w: nat -> bv32)
    requires AreRounds(v, w) && Words64(w)
    requires v(72) == Hash(0x39859DE7, 0xC199F8C7, 0x8FC96230, 0x125C24F0, 0xDE37534A)
    ensures v(80) == Hash(0x42541B35, 0x5738D5E1, 0x21834873, 0x681E6DF6, 0xD8FDF6AD)
  {
    assert At(72) && At(73) && At(74) && At(75) && At(76) && At(77) && At(78) && At(79);
  }

  lemma AllRounds(v: nat -> Hash, w: nat -> bv32)
    requires IsSchedule(w) && AreRounds(v, w) && Words0(w) && v(0) == InitialHash()
    ensures v(80) == Hash(0x42541B35, 0x5738D5E1, 0x21834873, 0x681E6DF6, 0xD8FDF6AD)
  {
    Expand16(w);
    Expand32(w);
    Expand48(w);
    Expand64(w);
    Rounds0(v, w);
    Rounds8(v, w);
    Rounds16(v, w);
    Rounds24(v, w);
    Rounds32(v, w);
    Rounds40(v, w);
    Rounds48(v, w);
    Rounds56(v, w);
    Rounds64(v, w);
    Rounds72(v, w);
  }

  // ------------------------------------------------------------------ the digest

  /** The one block of the padded message. */
  ghost predicate IsAbcBlock(block: Bytes) {
    && |block| == 64 && block[0] == 0x61 && block[1] == 0x62 && block[2] == 0x63 && block[3] == 0x80 && block[63] == 24
    && forall i :: 4 <= i < 63 ==> block[i] == 0
  }

  lemma AbcWords(block: Bytes, w: nat -> bv32)
    requires IsAbcBlock(block) && forall t: nat :: t < 16 ==> w(t) == Word(block[4 * t], block[4 * t + 1], block[4 * t + 2], block[4 * t + 3])
    ensures Words0(w)
  {
  }

  lemma ScheduleOf(block: Bytes, w: nat -> bv32)
    requires |block| == 64 && forall t: nat :: w(t) == W(block, t)
    ensures IsSchedule(w)
  {
  }

  lemma RoundsOf(block: Bytes, v: nat -> Hash, w: nat -> bv32)
    requires |block| == 64 && (forall t: nat :: w(t) == W(block, t)) && forall t: nat :: v(t) == Rounds(InitialHash(), block, t)
    ensures AreRounds(v, w) && v(0) == InitialHash()
  {
    forall t: nat | At(t) ensures v(t + 1) == Round(v(t), t, w(t)) {
      OneMoreRound(InitialHash(), block, t);
    }
  }

  lemma OneMoreRound(h: Hash, block: Bytes, t: nat)
    requires |block| == 64
    ensures Rounds(h, block, t + 1) == Round(Rounds(h, block, t), t, W(block, t))
  {
  }

  lemma AbcSum(v: Hash)
    requires v == Hash(0x42541B35, 0x5738D5E1, 0x21834873, 0x681E6DF6, 0xD8FDF6AD)
    ensures Add(InitialHash(), v) == Hash(0xA9993E36, 0x4706816A, 0xBA3E2571, 0x7850C26C, 0x9CD0D89D)
  {
  }

  lemma AbcCompress(block: Bytes)
    requires IsAbcBlock(block)
    ensures Compress(InitialHash(), block) == Hash(0xA9993E36, 0x4706816A, 0xBA3E2571, 0x7850C26C, 0x9CD0D89D)
  {
    var w := (t: nat) => W(block, t);
    var v := (t: nat) => Rounds(InitialHash(), block, t);
    AbcWords(block, w);
    ScheduleOf(block, w);
    RoundsOf(block, v, w);
    AllRounds(v, w);
    AbcSum(v(80));
  }

  lemma AbcPad(m: Bytes)
    requires m == [0x61, 0x62, 0x63]
    ensures IsAbcBlock(Pad(m))
  {
    assert ZeroCount(3) == 52;
    forall i: nat | i < 8 ensures LengthBytes(24)[i] == if i == 7 then 24 else 0 {
      if i < 7 {
        AllDropped(6 - i);
        assert DropBytes(24, 7 - i) == DropBytes(0, 6 - i);
      }
    }
  }

  lemma AllDropped(n: nat)
    ensures DropBytes(0, n) == 0
  {
  }

  lemma OneBlock(h: Hash, p: Bytes)
    requires |p| == 64
    ensures Fold(Compress, h, p) == Compress(h, p)
  {
    assert p[..64] == p && p[64..] == [];
  }

  lemma AbcDigest(h: Hash)
    requires h == Hash(0xA9993E36, 0x4706816A, 0xBA3E2571, 0x7850C26C, 0x9CD0D89D)
    ensures Digest(h) == AbcBytes()
  {
  }

  function AbcBytes(): Bytes {
    [0xA9, 0x99, 0x3E, 0x36, 0x47, 0x06, 0x81, 0x6A, 0xBA, 0x3E, 0x25, 0x71,
     0x78, 0x50, 0xC2, 0x6C, 0x9C, 0xD0, 0xD8, 0x9D]
  }

  /** SHA1("abc") is A9993E36 4706816A BA3E2571 7850C26C 9CD0D89D. */
  lemma Abc(m: Bytes)
    requires m == [0x61, 0x62, 0x63]
    ensures Sha1Of(m) == AbcBytes()
  {
    AbcPad(m);
    OneBlock(InitialHash(), Pad(m));
    AbcCompress(Pad(m));
    AbcDigest(Compress(InitialHash(), Pad(m)));
  }
}
