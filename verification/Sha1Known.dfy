/** The known answer for the message "abc", and where the constants of the rounds come from. */
module Sha1Known {
  import opened Bytes
  import opened Sha1Spec
  import opened Sha1Rounds
  import opened Sha1Info

  /** The constants are the whole parts of 2^30 times the square roots of 2, 3, 5 and 10. */
  lemma RoundConstants(t: nat)
    requires t < 80
    ensures var n := if t < 20 then 2 else if t < 40 then 3 else if t < 60 then 5 else 10;
            K(t) * K(t) <= n * 0x1000_0000_0000_0000 < (K(t) + 1) * (K(t) + 1)
  {
  }

  // ---------- bit operations on given words ----------

  function ToBits(x: Word): bv32 {
    x as bv32
  }

  lemma BitsBack(u: bv32)
    ensures ToBits(OfBits(u)) == u
  {
  }

  lemma XorGiven(x: Word, y: Word, u: bv32, v: bv32)
    requires ToBits(x) == u && ToBits(y) == v
    ensures Xor(x, y) == OfBits(u ^ v)
  {
  }

  lemma ParityGiven(x: Word, y: Word, z: Word, u: bv32, v: bv32, s: bv32)
    requires ToBits(x) == u && ToBits(y) == v && ToBits(z) == s
    ensures Parity(x, y, z) == OfBits(u ^ v ^ s)
  {
  }

  lemma ChGiven(x: Word, y: Word, z: Word, u: bv32, v: bv32, s: bv32)
    requires ToBits(x) == u && ToBits(y) == v && ToBits(z) == s
    ensures Ch(x, y, z) == OfBits((u & v) ^ (!u & s))
  {
  }

  lemma MajGiven(x: Word, y: Word, z: Word, u: bv32, v: bv32, s: bv32)
    requires ToBits(x) == u && ToBits(y) == v && ToBits(z) == s
    ensures Maj(x, y, z) == OfBits((u & v) ^ (u & s) ^ (v & s))
  {
  }

  lemma XorTo(u: bv32, v: bv32, m: bv32)
    requires u ^ v == m
    ensures Xor(OfBits(u), OfBits(v)) == OfBits(m)
  {
    hide *;
    BitsBack(u);
    BitsBack(v);
    XorGiven(OfBits(u), OfBits(v), u, v);
  }

  lemma ParityTo(u: bv32, v: bv32, s: bv32, m: bv32)
    requires u ^ v ^ s == m
    ensures Parity(OfBits(u), OfBits(v), OfBits(s)) == OfBits(m)
  {
    hide *;
    BitsBack(u);
    BitsBack(v);
    BitsBack(s);
    ParityGiven(OfBits(u), OfBits(v), OfBits(s), u, v, s);
  }

  lemma ChTo(u: bv32, v: bv32, s: bv32, m: bv32)
    requires (u & v) ^ (!u & s) == m
    ensures Ch(OfBits(u), OfBits(v), OfBits(s)) == OfBits(m)
  {
    hide *;
    BitsBack(u);
    BitsBack(v);
    BitsBack(s);
    ChGiven(OfBits(u), OfBits(v), OfBits(s), u, v, s);
  }

  lemma MajTo(u: bv32, v: bv32, s: bv32, m: bv32)
    requires (u & v) ^ (u & s) ^ (v & s) == m
    ensures Maj(OfBits(u), OfBits(v), OfBits(s)) == OfBits(m)
  {
    hide *;
    BitsBack(u);
    BitsBack(v);
    BitsBack(s);
    MajGiven(OfBits(u), OfBits(v), OfBits(s), u, v, s);
  }

  lemma XorFour(p: bv32, q: bv32, r: bv32, s: bv32, m: bv32, n: bv32, o: bv32)
    requires p ^ q == m && m ^ r == n && n ^ s == o
    ensures Xor(Xor(Xor(OfBits(p), OfBits(q)), OfBits(r)), OfBits(s)) == OfBits(o)
  {
    hide *;
    XorTo(p, q, m);
    XorTo(m, r, n);
    XorTo(n, s, o);
  }

  // ---------- the schedule ----------

  predicate WordFollows(w: seq<Word>, t: nat) {
    16 <= t < |w| && w[t] == Rotl1(Xor(Xor(Xor(w[t - 3], w[t - 8]), w[t - 14]), w[t - 16]))
  }

  /** Every word behind the first sixteen is the rotated exclusive or of four words before it. */
  predicate IsSchedule(w: seq<Word>) {
    |w| == 80 && forall t :: 16 <= t < 80 ==> WordFollows(w, t)
  }

  lemma {:induction false} ScheduleFollows(w: seq<Word>, t: nat, k: nat)
    requires |w| == 16 && t >= 16 && k < t
    ensures if k < 16 then Schedule(w, t)[k] == w[k] else WordFollows(Schedule(w, t), k)
    decreases t
  {
    hide Xor, Rotl1;
    if t > 16 && k < t - 1 {
      ScheduleFollows(w, t - 1, k);
    }
  }

  lemma FourWords(w: seq<Word>, t: nat, p: Word, q: Word, r: Word, s: Word)
    requires WordFollows(w, t) && w[t - 3] == p && w[t - 8] == q && w[t - 14] == r && w[t - 16] == s
    ensures w[t] == Rotl1(Xor(Xor(Xor(p, q), r), s))
  {
    hide Xor, Rotl1;
  }

  lemma NextWord(w: seq<Word>, t: nat, p: bv32, q: bv32, r: bv32, s: bv32, m: bv32, n: bv32, o: bv32)
    requires WordFollows(w, t) && p ^ q == m && m ^ r == n && n ^ s == o
    requires w[t - 3] == OfBits(p) && w[t - 8] == OfBits(q) && w[t - 14] == OfBits(r) && w[t - 16] == OfBits(s)
    ensures w[t] == Rotl1(OfBits(o))
  {
    hide *;
    FourWords(w, t, OfBits(p), OfBits(q), OfBits(r), OfBits(s));
    XorFour(p, q, r, s, m, n, o);
  }

  lemma Words24(w: seq<Word>)
    requires IsSchedule(w)
    requires w[0] == 0x61626380 && w[1] == 0x00000000 && w[2] == 0x00000000 && w[3] == 0x00000000 && w[4] == 0x00000000
    requires w[5] == 0x00000000 && w[6] == 0x00000000 && w[7] == 0x00000000 && w[8] == 0x00000000 && w[9] == 0x00000000
    requires w[10] == 0x00000000 && w[11] == 0x00000000 && w[12] == 0x00000000 && w[13] == 0x00000000 && w[14] == 0x00000000
    requires w[15] == 0x00000018
    ensures w[16] == 0xc2c4c700 && w[17] == 0x00000000 && w[18] == 0x00000030 && w[19] == 0x85898e01 && w[20] == 0x00000000
    ensures w[21] == 0x00000060 && w[22] == 0x0b131c03 && w[23] == 0x00000030
  {
    hide Xor, WordFollows;
    NextWord(w, 16, 0x00000000, 0x00000000, 0x00000000, 0x61626380, 0x00000000, 0x00000000, 0x61626380);
    NextWord(w, 17, 0x00000000, 0x00000000, 0x00000000, 0x00000000, 0x00000000, 0x00000000, 0x00000000);
    NextWord(w, 18, 0x00000018, 0x00000000, 0x00000000, 0x00000000, 0x00000018, 0x00000018, 0x00000018);
    NextWord(w, 19, 0xc2c4c700, 0x00000000, 0x00000000, 0x00000000, 0xc2c4c700, 0xc2c4c700, 0xc2c4c700);
    NextWord(w, 20, 0x00000000, 0x00000000, 0x00000000, 0x00000000, 0x00000000, 0x00000000, 0x00000000);
    NextWord(w, 21, 0x00000030, 0x00000000, 0x00000000, 0x00000000, 0x00000030, 0x00000030, 0x00000030);
    NextWord(w, 22, 0x85898e01, 0x00000000, 0x00000000, 0x00000000, 0x85898e01, 0x85898e01, 0x85898e01);
    NextWord(w, 23, 0x00000000, 0x00000018, 0x00000000, 0x00000000, 0x00000018, 0x00000018, 0x00000018);
  }

  lemma Words32(w: seq<Word>)
    requires IsSchedule(w)
    requires w[8] == 0x00000000 && w[9] == 0x00000000 && w[10] == 0x00000000 && w[11] == 0x00000000 && w[12] == 0x00000000
    requires w[13] == 0x00000000 && w[14] == 0x00000000 && w[15] == 0x00000018 && w[16] == 0xc2c4c700 && w[17] == 0x00000000
    requires w[18] == 0x00000030 && w[19] == 0x85898e01 && w[20] == 0x00000000 && w[21] == 0x00000060 && w[22] == 0x0b131c03
    requires w[23] == 0x00000030
    ensures w[24] == 0x85898ec1 && w[25] == 0x16263806 && w[26] == 0x00000000 && w[27] == 0x00000180 && w[28] == 0x2c4c700c
    ensures w[29] == 0x000000f0 && w[30] == 0x93afb507 && w[31] == 0x5898e048
  {
    hide Xor, WordFollows;
    NextWord(w, 24, 0x00000060, 0xc2c4c700, 0x00000000, 0x00000000, 0xc2c4c760, 0xc2c4c760, 0xc2c4c760);
    NextWord(w, 25, 0x0b131c03, 0x00000000, 0x00000000, 0x00000000, 0x0b131c03, 0x0b131c03, 0x0b131c03);
    NextWord(w, 26, 0x00000030, 0x00000030, 0x00000000, 0x00000000, 0x00000000, 0x00000000, 0x00000000);
    NextWord(w, 27, 0x85898ec1, 0x85898e01, 0x00000000, 0x00000000, 0x000000c0, 0x000000c0, 0x000000c0);
    NextWord(w, 28, 0x16263806, 0x00000000, 0x00000000, 0x00000000, 0x16263806, 0x16263806, 0x16263806);
    NextWord(w, 29, 0x00000000, 0x00000060, 0x00000018, 0x00000000, 0x00000060, 0x00000078, 0x00000078);
    NextWord(w, 30, 0x00000180, 0x0b131c03, 0xc2c4c700, 0x00000000, 0x0b131d83, 0xc9d7da83, 0xc9d7da83);
    NextWord(w, 31, 0x2c4c700c, 0x00000030, 0x00000000, 0x00000018, 0x2c4c703c, 0x2c4c703c, 0x2c4c7024);
  }

  lemma Words40(w: seq<Word>)
    requires IsSchedule(w)
    requires w[16] == 0xc2c4c700 && w[17] == 0x00000000 && w[18] == 0x00000030 && w[19] == 0x85898e01 && w[20] == 0x00000000
    requires w[21] == 0x00000060 && w[22] == 0x0b131c03 && w[23] == 0x00000030 && w[24] == 0x85898ec1 && w[25] == 0x16263806
    requires w[26] == 0x00000000 && w[27] == 0x00000180 && w[28] == 0x2c4c700c && w[29] == 0x000000f0 && w[30] == 0x93afb507
    requires w[31] == 0x5898e048
    ensures w[32] == 0x8e9a9202 && w[33] == 0x00000600 && w[34] == 0xb131c0f0 && w[35] == 0x16263bc6 && w[36] == 0x4ebed41e
    ensures w[37] == 0x626380a1 && w[38] == 0x16263806 && w[39] == 0x000018c0
  {
    hide Xor, WordFollows;
    NextWord(w, 32, 0x000000f0, 0x85898ec1, 0x00000030, 0xc2c4c700, 0x85898e31, 0x85898e01, 0x474d4901);
    NextWord(w, 33, 0x93afb507, 0x16263806, 0x85898e01, 0x00000000, 0x85898d01, 0x00000300, 0x00000300);
    NextWord(w, 34, 0x5898e048, 0x00000000, 0x00000000, 0x00000030, 0x5898e048, 0x5898e048, 0x5898e078);
    NextWord(w, 35, 0x8e9a9202, 0x00000180, 0x00000060, 0x85898e01, 0x8e9a9382, 0x8e9a93e2, 0x0b131de3);
    NextWord(w, 36, 0x00000600, 0x2c4c700c, 0x0b131c03, 0x00000000, 0x2c4c760c, 0x275f6a0f, 0x275f6a0f);
    NextWord(w, 37, 0xb131c0f0, 0x000000f0, 0x00000030, 0x00000060, 0xb131c000, 0xb131c030, 0xb131c050);
    NextWord(w, 38, 0x16263bc6, 0x93afb507, 0x85898ec1, 0x0b131c03, 0x85898ec1, 0x00000000, 0x0b131c03);
    NextWord(w, 39, 0x4ebed41e, 0x5898e048, 0x16263806, 0x00000030, 0x16263456, 0x00000c50, 0x00000c60);
  }

  lemma Words48(w: seq<Word>)
    requires IsSchedule(w)
    requires w[24] == 0x85898ec1 && w[25] == 0x16263806 && w[26] == 0x00000000 && w[27] == 0x00000180 && w[28] == 0x2c4c700c
    requires w[29] == 0x000000f0 && w[30] == 0x93afb507 && w[31] == 0x5898e048 && w[32] == 0x8e9a9202 && w[33] == 0x00000600
    requires w[34] == 0xb131c0f0 && w[35] == 0x16263bc6 && w[36] == 0x4ebed41e && w[37] == 0x626380a1 && w[38] == 0x16263806
    requires w[39] == 0x000018c0
    ensures w[40] == 0xd2e138c4 && w[41] == 0x00000f00 && w[42] == 0x3afb5079 && w[43] == 0x898e04e5 && w[44] == 0xe2ba3c2b
    ensures w[45] == 0x000060c0 && w[46] == 0x053a37cd && w[47] == 0x74458547
  {
    hide Xor, WordFollows;
    NextWord(w, 40, 0x626380a1, 0x8e9a9202, 0x00000000, 0x85898ec1, 0xecf912a3, 0xecf912a3, 0x69709c62);
    NextWord(w, 41, 0x16263806, 0x00000600, 0x00000180, 0x16263806, 0x16263e06, 0x16263f86, 0x00000780);
    NextWord(w, 42, 0x000018c0, 0xb131c0f0, 0x2c4c700c, 0x00000000, 0xb131d830, 0x9d7da83c, 0x9d7da83c);
    NextWord(w, 43, 0xd2e138c4, 0x16263bc6, 0x000000f0, 0x00000180, 0xc4c70302, 0xc4c703f2, 0xc4c70272);
    NextWord(w, 44, 0x00000f00, 0x4ebed41e, 0x93afb507, 0x2c4c700c, 0x4ebedb1e, 0xdd116e19, 0xf15d1e15);
    NextWord(w, 45, 0x3afb5079, 0x626380a1, 0x5898e048, 0x000000f0, 0x5898d0d8, 0x00003090, 0x00003060);
    NextWord(w, 46, 0x898e04e5, 0x16263806, 0x8e9a9202, 0x93afb507, 0x9fa83ce3, 0x1132aee1, 0x829d1be6);
    NextWord(w, 47, 0xe2ba3c2b, 0x000018c0, 0x00000600, 0x5898e048, 0xe2ba24eb, 0xe2ba22eb, 0xba22c2a3);
  }

  lemma Words56(w: seq<Word>)
    requires IsSchedule(w)
    requires w[32] == 0x8e9a9202 && w[33] == 0x00000600 && w[34] == 0xb131c0f0 && w[35] == 0x16263bc6 && w[36] == 0x4ebed41e
    requires w[37] == 0x626380a1 && w[38] == 0x16263806 && w[39] == 0x000018c0 && w[40] == 0xd2e138c4 && w[41] == 0x00000f00
    requires w[42] == 0x3afb5079 && w[43] == 0x898e04e5 && w[44] == 0xe2ba3c2b && w[45] == 0x000060c0 && w[46] == 0x053a37cd
    requires w[47] == 0x74458547
    ensures w[48] == 0xda9415ed && w[49] == 0x26380a16 && w[50] == 0x626383a1 && w[51] == 0x4ebf54de && w[52] == 0x3835b44b
    ensures w[53] == 0x0000f600 && w[54] == 0x1e84c7a3 && w[55] == 0x98e04d98
  {
    hide Xor, WordFollows;
    NextWord(w, 48, 0x000060c0, 0xd2e138c4, 0xb131c0f0, 0x8e9a9202, 0xd2e15804, 0x63d098f4, 0xed4a0af6);
    NextWord(w, 49, 0x053a37cd, 0x00000f00, 0x16263bc6, 0x00000600, 0x053a38cd, 0x131c030b, 0x131c050b);
    NextWord(w, 50, 0x74458547, 0x3afb5079, 0x4ebed41e, 0xb131c0f0, 0x4ebed53e, 0x00000120, 0xb131c1d0);
    NextWord(w, 51, 0xda9415ed, 0x898e04e5, 0x626380a1, 0x16263bc6, 0x531a1108, 0x317991a9, 0x275faa6f);
    NextWord(w, 52, 0x26380a16, 0xe2ba3c2b, 0x16263806, 0x4ebed41e, 0xc482363d, 0xd2a40e3b, 0x9c1ada25);
    NextWord(w, 53, 0x626383a1, 0x000060c0, 0x000018c0, 0x626380a1, 0x6263e361, 0x6263fba1, 0x00007b00);
    NextWord(w, 54, 0x4ebf54de, 0x053a37cd, 0xd2e138c4, 0x16263806, 0x4b856313, 0x99645bd7, 0x8f4263d1);
    NextWord(w, 55, 0x3835b44b, 0x74458547, 0x00000f00, 0x000018c0, 0x4c70310c, 0x4c703e0c, 0x4c7026cc);
  }

  lemma Words64(w: seq<Word>)
    requires IsSchedule(w)
    requires w[40] == 0xd2e138c4 && w[41] == 0x00000f00 && w[42] == 0x3afb5079 && w[43] == 0x898e04e5 && w[44] == 0xe2ba3c2b
    requires w[45] == 0x000060c0 && w[46] == 0x053a37cd && w[47] == 0x74458547 && w[48] == 0xda9415ed && w[49] == 0x26380a16
    requires w[50] == 0x626383a1 && w[51] == 0x4ebf54de && w[52] == 0x3835b44b && w[53] == 0x0000f600 && w[54] == 0x1e84c7a3
    requires w[55] == 0x98e04d98
    ensures w[56] == 0x651d16a0 && w[57] == 0x62658ca1 && w[58] == 0x458544d6 && w[59] == 0x44584cb7 && w[60] == 0x7ba06619
    ensures w[61] == 0x6380aea2 && w[62] == 0x0ae55269 && w[63] == 0x627b49a1
  {
    hide Xor, WordFollows;
    NextWord(w, 56, 0x0000f600, 0xda9415ed, 0x3afb5079, 0xd2e138c4, 0xda94e3ed, 0xe06fb394, 0x328e8b50);
    NextWord(w, 57, 0x1e84c7a3, 0x26380a16, 0x898e04e5, 0x00000f00, 0x38bccdb5, 0xb132c950, 0xb132c650);
    NextWord(w, 58, 0x98e04d98, 0x626383a1, 0xe2ba3c2b, 0x3afb5079, 0xfa83ce39, 0x1839f212, 0x22c2a26b);
    NextWord(w, 59, 0x651d16a0, 0x4ebf54de, 0x000060c0, 0x898e04e5, 0x2ba2427e, 0x2ba222be, 0xa22c265b);
    NextWord(w, 60, 0x62658ca1, 0x3835b44b, 0x053a37cd, 0xe2ba3c2b, 0x5a5038ea, 0x5f6a0f27, 0xbdd0330c);
    NextWord(w, 61, 0x458544d6, 0x0000f600, 0x74458547, 0x000060c0, 0x4585b2d6, 0x31c03791, 0x31c05751);
    NextWord(w, 62, 0x44584cb7, 0x1e84c7a3, 0xda9415ed, 0x053a37cd, 0x5adc8b14, 0x80489ef9, 0x8572a934);
    NextWord(w, 63, 0x7ba06619, 0x98e04d98, 0x26380a16, 0x74458547, 0xe3402b81, 0xc5782197, 0xb13da4d0);
  }

  lemma Words72(w: seq<Word>)
    requires IsSchedule(w)
    requires w[48] == 0xda9415ed && w[49] == 0x26380a16 && w[50] == 0x626383a1 && w[51] == 0x4ebf54de && w[52] == 0x3835b44b
    requires w[53] == 0x0000f600 && w[54] == 0x1e84c7a3 && w[55] == 0x98e04d98 && w[56] == 0x651d16a0 && w[57] == 0x62658ca1
    requires w[58] == 0x458544d6 && w[59] == 0x44584cb7 && w[60] == 0x7ba06619 && w[61] == 0x6380aea2 && w[62] == 0x0ae55269
    requires w[63] == 0x627b49a1
    ensures w[64] == 0x7cd45c9d && w[65] == 0x000f0000 && w[66] == 0xfb50753a && w[67] == 0xec6765e8 && w[68] == 0xba3c2be2
    ensures w[69] == 0x0060c000 && w[70] == 0x3a37cd05 && w[71] == 0x458546f4
  {
    hide Xor, WordFollows;
    NextWord(w, 64, 0x6380aea2, 0x651d16a0, 0x626383a1, 0xda9415ed, 0x069db802, 0x64fe3ba3, 0xbe6a2e4e);
    NextWord(w, 65, 0x0ae55269, 0x62658ca1, 0x4ebf54de, 0x26380a16, 0x6880dec8, 0x263f8a16, 0x00078000);
    NextWord(w, 66, 0x627b49a1, 0x458544d6, 0x3835b44b, 0x626383a1, 0x27fe0d77, 0x1fcbb93c, 0x7da83a9d);
    NextWord(w, 67, 0x7cd45c9d, 0x44584cb7, 0x0000f600, 0x4ebf54de, 0x388c102a, 0x388ce62a, 0x7633b2f4);
    NextWord(w, 68, 0x000f0000, 0x7ba06619, 0x1e84c7a3, 0x3835b44b, 0x7baf6619, 0x652ba1ba, 0x5d1e15f1);
    NextWord(w, 69, 0xfb50753a, 0x6380aea2, 0x98e04d98, 0x0000f600, 0x98d0db98, 0x00309600, 0x00306000);
    NextWord(w, 70, 0xec6765e8, 0x0ae55269, 0x651d16a0, 0x1e84c7a3, 0xe6823781, 0x839f2121, 0x9d1be682);
    NextWord(w, 71, 0xba3c2be2, 0x627b49a1, 0x62658ca1, 0x98e04d98, 0xd8476243, 0xba22eee2, 0x22c2a37a);
  }

  lemma Words80(w: seq<Word>)
    requires IsSchedule(w)
    requires w[56] == 0x651d16a0 && w[57] == 0x62658ca1 && w[58] == 0x458544d6 && w[59] == 0x44584cb7 && w[60] == 0x7ba06619
    requires w[61] == 0x6380aea2 && w[62] == 0x0ae55269 && w[63] == 0x627b49a1 && w[64] == 0x7cd45c9d && w[65] == 0x000f0000
    requires w[66] == 0xfb50753a && w[67] == 0xec6765e8 && w[68] == 0xba3c2be2 && w[69] == 0x0060c000 && w[70] == 0x3a37cd05
    requires w[71] == 0x458546f4
    ensures w[72] == 0xb8599dd6 && w[73] == 0x380a1a26 && w[74] == 0x01e02203 && w[75] == 0xe7cc3456 && w[76] == 0xe6e60b69
    ensures w[77] == 0x00f60a00 && w[78] == 0x5795ef4f && w[79] == 0x822e0879
  {
    hide Xor, WordFollows;
    NextWord(w, 72, 0x0060c000, 0x7cd45c9d, 0x458544d6, 0x651d16a0, 0x7cb49c9d, 0x3931d84b, 0x5c2cceeb);
    NextWord(w, 73, 0x3a37cd05, 0x000f0000, 0x44584cb7, 0x62658ca1, 0x3a38cd05, 0x7e6081b2, 0x1c050d13);
    NextWord(w, 74, 0x458546f4, 0xfb50753a, 0x7ba06619, 0x458544d6, 0xbed533ce, 0xc57555d7, 0x80f01101);
    NextWord(w, 75, 0xb8599dd6, 0xec6765e8, 0x6380aea2, 0x44584cb7, 0x543ef83e, 0x37be569c, 0x73e61a2b);
    NextWord(w, 76, 0x380a1a26, 0xba3c2be2, 0x0ae55269, 0x7ba06619, 0x823631c4, 0x88d363ad, 0xf37305b4);
    NextWord(w, 77, 0x01e02203, 0x0060c000, 0x627b49a1, 0x6380aea2, 0x0180e203, 0x63fbaba2, 0x007b0500);
    NextWord(w, 78, 0xe7cc3456, 0x3a37cd05, 0x7cd45c9d, 0x0ae55269, 0xddfbf953, 0xa12fa5ce, 0xabcaf7a7);
    NextWord(w, 79, 0xe6e60b69, 0x458546f4, 0x000f0000, 0x627b49a1, 0xa3634d9d, 0xa36c4d9d, 0xc117043c);
  }

  // ---------- the rounds ----------

  /** A round, from what its parts come to; `q` is what the sum carries out of the word. */
  lemma RoundTo(t: nat, h: Hash, w: Word, f: Word, r: Word, q: nat, k: Hash)
    requires Mix(t, h.b, h.c, h.d) == f && Rotl5(h.a) == r && k == Hash(k.a, h.a, Rotl30(h.b), h.c, h.d)
    requires r + f + h.e + K(t) + w == q * WORD_LIMIT + k.a
    ensures Round(t, h, w) == k
  {
    hide Mix, Rotl5, Rotl30, K;
  }

  lemma ChRound(w: seq<Word>, t: nat, x: bv32, y: bv32, z: bv32, f: bv32, r: Word, q: nat, h: Hash, k: Hash)
    requires t < |w| && Rounds(INITIAL, w, t) == h && h.b == OfBits(x) && h.c == OfBits(y) && h.d == OfBits(z)
    requires t < 20 && (x & y) ^ (!x & z) == f && Rotl5(h.a) == r && k == Hash(k.a, h.a, Rotl30(h.b), h.c, h.d)
    requires r + OfBits(f) + h.e + K(t) + w[t] == q * WORD_LIMIT + k.a
    ensures Rounds(INITIAL, w, t + 1) == k
  {
    hide Rounds, Ch, Parity, Maj, OfBits, Rotl5, Rotl30, K, Round;
    ChTo(x, y, z, f);
    RoundTo(t, h, w[t], OfBits(f), r, q, k);
    RoundsStep(INITIAL, w, t);
  }

  lemma ParityRound(w: seq<Word>, t: nat, x: bv32, y: bv32, z: bv32, f: bv32, r: Word, q: nat, h: Hash, k: Hash)
    requires t < |w| && Rounds(INITIAL, w, t) == h && h.b == OfBits(x) && h.c == OfBits(y) && h.d == OfBits(z)
    requires (20 <= t < 40 || 60 <= t < 80) && x ^ y ^ z == f && Rotl5(h.a) == r && k == Hash(k.a, h.a, Rotl30(h.b), h.c, h.d)
    requires r + OfBits(f) + h.e + K(t) + w[t] == q * WORD_LIMIT + k.a
    ensures Rounds(INITIAL, w, t + 1) == k
  {
    hide Rounds, Ch, Parity, Maj, OfBits, Rotl5, Rotl30, K, Round;
    ParityTo(x, y, z, f);
    RoundTo(t, h, w[t], OfBits(f), r, q, k);
    RoundsStep(INITIAL, w, t);
  }

  lemma MajRound(w: seq<Word>, t: nat, x: bv32, y: bv32, z: bv32, f: bv32, r: Word, q: nat, h: Hash, k: Hash)
    requires t < |w| && Rounds(INITIAL, w, t) == h && h.b == OfBits(x) && h.c == OfBits(y) && h.d == OfBits(z)
    requires 40 <= t < 60 && (x & y) ^ (x & z) ^ (y & z) == f && Rotl5(h.a) == r && k == Hash(k.a, h.a, Rotl30(h.b), h.c, h.d)
    requires r + OfBits(f) + h.e + K(t) + w[t] == q * WORD_LIMIT + k.a
    ensures Rounds(INITIAL, w, t + 1) == k
  {
    hide Rounds, Ch, Parity, Maj, OfBits, Rotl5, Rotl30, K, Round;
    MajTo(x, y, z, f);
    RoundTo(t, h, w[t], OfBits(f), r, q, k);
    RoundsStep(INITIAL, w, t);
  }

  lemma Rounds10(w: seq<Word>)
    requires |w| == 80
    requires w[0] == 0x61626380 && w[1] == 0x00000000 && w[2] == 0x00000000 && w[3] == 0x00000000 && w[4] == 0x00000000
    requires w[5] == 0x00000000 && w[6] == 0x00000000 && w[7] == 0x00000000 && w[8] == 0x00000000 && w[9] == 0x00000000
    ensures Rounds(INITIAL, w, 10) == Hash(0x8351f929, 0x4b6ae328, 0x27a301f5, 0x664f8c30, 0x0ff1f290)
  {
    hide Rounds;
    var h0 := Hash(0x67452301, 0xefcdab89, 0x98badcfe, 0x10325476, 0xc3d2e1f0);
    RoundsStart(INITIAL, w);
    var h1 := Hash(0x0116fc33, 0x67452301, 0x7bf36ae2, 0x98badcfe, 0x10325476);
    ChRound(w, 0, 0xefcdab89, 0x98badcfe, 0x10325476, 0x98badcfe, 0xe8a4602c, 3, h0, h1);
    var h2 := Hash(0x8990536d, 0x0116fc33, 0x59d148c0, 0x7bf36ae2, 0x98badcfe);
    ChRound(w, 1, 0x67452301, 0x7bf36ae2, 0x98badcfe, 0xfbfbfefe, 0x22df8660, 1, h1, h2);
    var h3 := Hash(0xa1390f08, 0x8990536d, 0xc045bf0c, 0x59d148c0, 0x7bf36ae2);
    ChRound(w, 2, 0x0116fc33, 0x59d148c0, 0x7bf36ae2, 0x7bf14ac0, 0x320a6db1, 1, h2, h3);
    var h4 := Hash(0xcdd8e11b, 0xa1390f08, 0x626414db, 0xc045bf0c, 0x59d148c0);
    ChRound(w, 3, 0x8990536d, 0xc045bf0c, 0x59d148c0, 0xd0411b8c, 0x2721e114, 1, h3, h4);
    var h5 := Hash(0xcfd499de, 0xcdd8e11b, 0x284e43c2, 0x626414db, 0xc045bf0c);
    ChRound(w, 4, 0xa1390f08, 0x626414db, 0xc045bf0c, 0x6064b40c, 0xbb1c2379, 1, h4, h5);
    var h6 := Hash(0x3fc7ca40, 0xcfd499de, 0xf3763846, 0x284e43c2, 0x626414db);
    ChRound(w, 5, 0xcdd8e11b, 0x284e43c2, 0x626414db, 0x2a6c55c2, 0xfa933bd9, 2, h5, h6);
    var h7 := Hash(0x993e30c1, 0x3fc7ca40, 0xb3f52677, 0xf3763846, 0x284e43c2);
    ChRound(w, 6, 0xcfd499de, 0xf3763846, 0x284e43c2, 0xe35e5a46, 0xf8f94807, 2, h6, h7);
    var h8 := Hash(0x9e8c07d4, 0x993e30c1, 0x0ff1f290, 0xb3f52677, 0xf3763846);
    ChRound(w, 7, 0x3fc7ca40, 0xb3f52677, 0xf3763846, 0xf3f53246, 0x27c61833, 1, h7, h8);
    var h9 := Hash(0x4b6ae328, 0x9e8c07d4, 0x664f8c30, 0x0ff1f290, 0xb3f52677);
    ChRound(w, 8, 0x993e30c1, 0x0ff1f290, 0xb3f52677, 0x2bf136b6, 0xd180fa93, 2, h8, h9);
    var h10 := Hash(0x8351f929, 0x4b6ae328, 0x27a301f5, 0x664f8c30, 0x0ff1f290);
    ChRound(w, 9, 0x9e8c07d4, 0x664f8c30, 0x0ff1f290, 0x077df410, 0x6d5c6509, 1, h9, h10);
  }

  lemma Rounds20(w: seq<Word>)
    requires |w| == 80 && Rounds(INITIAL, w, 10) == Hash(0x8351f929, 0x4b6ae328, 0x27a301f5, 0x664f8c30, 0x0ff1f290)
    requires w[10] == 0x00000000 && w[11] == 0x00000000 && w[12] == 0x00000000 && w[13] == 0x00000000 && w[14] == 0x00000000
    requires w[15] == 0x00000018 && w[16] == 0xc2c4c700 && w[17] == 0x00000000 && w[18] == 0x00000030 && w[19] == 0x85898e01
    ensures Rounds(INITIAL, w, 20) == Hash(0xfd9e1d7d, 0xdc64901d, 0x20aa99ca, 0xd3a49608, 0xc82f758b)
  {
    hide Rounds;
    var h10 := Hash(0x8351f929, 0x4b6ae328, 0x27a301f5, 0x664f8c30, 0x0ff1f290);
    var h11 := Hash(0xfbda9e89, 0x8351f929, 0x12dab8ca, 0x27a301f5, 0x664f8c30);
    ChRound(w, 10, 0x4b6ae328, 0x27a301f5, 0x664f8c30, 0x27270d30, 0x6a3f2530, 0, h10, h11);
    var h12 := Hash(0x63188fe4, 0xfbda9e89, 0x60d47e4a, 0x12dab8ca, 0x27a301f5);
    ChRound(w, 11, 0x8351f929, 0x12dab8ca, 0x27a301f5, 0x26f2b8dc, 0x7b53d13f, 1, h11, h12);
    var h13 := Hash(0x4607b664, 0x63188fe4, 0x7ef6a7a2, 0x60d47e4a, 0x12dab8ca);
    ChRound(w, 12, 0xfbda9e89, 0x60d47e4a, 0x12dab8ca, 0x60d03e4a, 0x6311fc8c, 1, h12, h13);
    var h14 := Hash(0x9128f695, 0x4607b664, 0x18c623f9, 0x7ef6a7a2, 0x60d47e4a);
    ChRound(w, 13, 0x63188fe4, 0x7ef6a7a2, 0x60d47e4a, 0x62d4f7aa, 0xc0f6cc88, 1, h13, h14);
    var h15 := Hash(0x196bee77, 0x9128f695, 0x1181ed99, 0x18c623f9, 0x7ef6a7a2);
    ChRound(w, 14, 0x4607b664, 0x18c623f9, 0x7ef6a7a2, 0x38f623e2, 0x251ed2b2, 1, h14, h15);
    var h16 := Hash(0x20bdd62f, 0x196bee77, 0x644a3da5, 0x1181ed99, 0x18c623f9);
    ChRound(w, 15, 0x9128f695, 0x1181ed99, 0x18c623f9, 0x19c6e5f9, 0x2d7dcee3, 1, h15, h16);
    var h17 := Hash(0x4e925823, 0x20bdd62f, 0xc65afb9d, 0x644a3da5, 0x1181ed99);
    ChRound(w, 16, 0x196bee77, 0x644a3da5, 0x1181ed99, 0x00ca2dad, 0x17bac5e4, 1, h16, h17);
    var h18 := Hash(0x82aa6728, 0x4e925823, 0xc82f758b, 0xc65afb9d, 0x644a3da5);
    ChRound(w, 17, 0x20bdd62f, 0xc65afb9d, 0x644a3da5, 0x445afb8d, 0xd24b0469, 1, h17, h18);
    var h19 := Hash(0xdc64901d, 0x82aa6728, 0xd3a49608, 0xc82f758b, 0xc65afb9d);
    ChRound(w, 18, 0x4e925823, 0xc82f758b, 0xc65afb9d, 0xc84af39f, 0x554ce510, 1, h18, h19);
    var h20 := Hash(0xfd9e1d7d, 0xdc64901d, 0x20aa99ca, 0xd3a49608, 0xc82f758b);
    ChRound(w, 19, 0x82aa6728, 0xd3a49608, 0xc82f758b, 0xcaa5168b, 0x8c9203bb, 2, h19, h20);
  }

  lemma Rounds30(w: seq<Word>)
    requires |w| == 80 && Rounds(INITIAL, w, 20) == Hash(0xfd9e1d7d, 0xdc64901d, 0x20aa99ca, 0xd3a49608, 0xc82f758b)
    requires w[20] == 0x00000000 && w[21] == 0x00000060 && w[22] == 0x0b131c03 && w[23] == 0x00000030 && w[24] == 0x85898ec1
    requires w[25] == 0x16263806 && w[26] == 0x00000000 && w[27] == 0x00000180 && w[28] == 0x2c4c700c && w[29] == 0x000000f0
    ensures Rounds(INITIAL, w, 30) == Hash(0xc5fbaf5d, 0x8370b52e, 0xd2aa1365, 0x6f8d7ef5, 0x12104ee9)
  {
    hide Rounds;
    var h20 := Hash(0xfd9e1d7d, 0xdc64901d, 0x20aa99ca, 0xd3a49608, 0xc82f758b);
    var h21 := Hash(0x1a37b0ca, 0xfd9e1d7d, 0x77192407, 0x20aa99ca, 0xd3a49608);
    ParityRound(w, 20, 0xdc64901d, 0x20aa99ca, 0xd3a49608, 0x2f6a9fdf, 0xb3c3afbf, 2, h20, h21);
    var h22 := Hash(0x33a23bfc, 0x1a37b0ca, 0x7f67875f, 0x77192407, 0x20aa99ca);
    ParityRound(w, 21, 0xfd9e1d7d, 0x77192407, 0x20aa99ca, 0xaa2da0b0, 0x46f61943, 2, h21, h22);
    var h23 := Hash(0x21283486, 0x33a23bfc, 0x868dec32, 0x7f67875f, 0x77192407);
    ParityRound(w, 22, 0x1a37b0ca, 0x7f67875f, 0x77192407, 0x12491392, 0x74477f86, 1, h22, h23);
    var h24 := Hash(0xd541f12d, 0x21283486, 0x0ce88eff, 0x868dec32, 0x7f67875f);
    ParityRound(w, 23, 0x33a23bfc, 0x868dec32, 0x7f67875f, 0xca485091, 0x250690c4, 1, h23, h24);
    var h25 := Hash(0xc7567dc6, 0xd541f12d, 0x884a0d21, 0x0ce88eff, 0x868dec32);
    ParityRound(w, 24, 0x21283486, 0x0ce88eff, 0x868dec32, 0xab4d564b, 0xa83e25ba, 2, h24, h25);
    var h26 := Hash(0x48413ba4, 0xc7567dc6, 0x75507c4b, 0x884a0d21, 0x0ce88eff);
    ParityRound(w, 25, 0xd541f12d, 0x884a0d21, 0x0ce88eff, 0x51e372f3, 0xeacfb8d8, 2, h25, h26);
    var h27 := Hash(0xbe35fbd5, 0x48413ba4, 0xb1d59f71, 0x75507c4b, 0x884a0d21);
    ParityRound(w, 26, 0xc7567dc6, 0x75507c4b, 0x884a0d21, 0x3a4c0cac, 0x08277489, 0, h26, h27);
    var h28 := Hash(0x4aa84d97, 0xbe35fbd5, 0x12104ee9, 0xb1d59f71, 0x75507c4b);
    ParityRound(w, 27, 0x48413ba4, 0xb1d59f71, 0x75507c4b, 0x8cc4d89e, 0xc6bf7ab7, 2, h27, h28);
    var h29 := Hash(0x8370b52e, 0x4aa84d97, 0x6f8d7ef5, 0x12104ee9, 0xb1d59f71);
    ParityRound(w, 28, 0xbe35fbd5, 0x12104ee9, 0xb1d59f71, 0x1df02a4d, 0x5509b2e9, 1, h28, h29);
    var h30 := Hash(0xc5fbaf5d, 0x8370b52e, 0xd2aa1365, 0x6f8d7ef5, 0x12104ee9);
    ParityRound(w, 29, 0x4aa84d97, 0x6f8d7ef5, 0x12104ee9, 0x37357d8b, 0x6e16a5d0, 1, h29, h30);
  }

  lemma Rounds40(w: seq<Word>)
    requires |w| == 80 && Rounds(INITIAL, w, 30) == Hash(0xc5fbaf5d, 0x8370b52e, 0xd2aa1365, 0x6f8d7ef5, 0x12104ee9)
    requires w[30] == 0x93afb507 && w[31] == 0x5898e048 && w[32] == 0x8e9a9202 && w[33] == 0x00000600 && w[34] == 0xb131c0f0
    requires w[35] == 0x16263bc6 && w[36] == 0x4ebed41e && w[37] == 0x626380a1 && w[38] == 0x16263806 && w[39] == 0x000018c0
    ensures Rounds(INITIAL, w, 40) == Hash(0x32de1cba, 0x4c986405, 0xf718e5cf, 0x03d447f6, 0xf72eec32)
  {
    hide Rounds;
    var h30 := Hash(0xc5fbaf5d, 0x8370b52e, 0xd2aa1365, 0x6f8d7ef5, 0x12104ee9);
    var h31 := Hash(0x1267b407, 0xc5fbaf5d, 0xa0dc2d4b, 0xd2aa1365, 0x6f8d7ef5);
    ParityRound(w, 30, 0x8370b52e, 0xd2aa1365, 0x6f8d7ef5, 0x3e57d8be, 0xbf75ebb8, 2, h30, h31);
    var h32 := Hash(0x3b845d33, 0x1267b407, 0x717eebd7, 0xa0dc2d4b, 0xd2aa1365);
    ParityRound(w, 31, 0xc5fbaf5d, 0xa0dc2d4b, 0xd2aa1365, 0xb78d9173, 0x4cf680e2, 2, h31, h32);
    var h33 := Hash(0x046faa0a, 0x3b845d33, 0xc499ed01, 0x717eebd7, 0xa0dc2d4b);
    ParityRound(w, 32, 0x1267b407, 0x717eebd7, 0xa0dc2d4b, 0xc3c5729b, 0x708ba667, 3, h32, h33);
    var h34 := Hash(0x2c0ebc11, 0x046faa0a, 0xcee1174c, 0xc499ed01, 0x717eebd7);
    ParityRound(w, 33, 0x3b845d33, 0xc499ed01, 0x717eebd7, 0x8e635be5, 0x8df54140, 2, h33, h34);
    var h35 := Hash(0x21796ad4, 0x2c0ebc11, 0x811bea82, 0xcee1174c, 0xc499ed01);
    ParityRound(w, 34, 0x046faa0a, 0xcee1174c, 0xc499ed01, 0x0e175047, 0x81d78225, 2, h34, h35);
    var h36 := Hash(0xdcbbb0cb, 0x21796ad4, 0x4b03af04, 0x811bea82, 0xcee1174c);
    ParityRound(w, 35, 0x2c0ebc11, 0x811bea82, 0xcee1174c, 0x63f441df, 0x2f2d5a84, 1, h35, h36);
    var h37 := Hash(0x0f511fd8, 0xdcbbb0cb, 0x085e5ab5, 0x4b03af04, 0x811bea82);
    ParityRound(w, 36, 0x21796ad4, 0x4b03af04, 0x811bea82, 0xeb612f52, 0x9776197b, 3, h36, h37);
    var h38 := Hash(0xdc63973f, 0x0f511fd8, 0xf72eec32, 0x085e5ab5, 0x4b03af04);
    ParityRound(w, 37, 0xdcbbb0cb, 0x085e5ab5, 0x4b03af04, 0x9fe6457a, 0xea23fb01, 2, h37, h38);
    var h39 := Hash(0x4c986405, 0xdc63973f, 0x03d447f6, 0xf72eec32, 0x085e5ab5);
    ParityRound(w, 38, 0x0f511fd8, 0xf72eec32, 0x085e5ab5, 0xf021a95f, 0x8c72e7fb, 2, h38, h39);
    var h40 := Hash(0x32de1cba, 0x4c986405, 0xf718e5cf, 0x03d447f6, 0xf72eec32);
    ParityRound(w, 39, 0xdc63973f, 0x03d447f6, 0xf72eec32, 0x28993cfb, 0x930c80a9, 1, h39, h40);
  }

  lemma Rounds50(w: seq<Word>)
    requires |w| == 80 && Rounds(INITIAL, w, 40) == Hash(0x32de1cba, 0x4c986405, 0xf718e5cf, 0x03d447f6, 0xf72eec32)
    requires w[40] == 0xd2e138c4 && w[41] == 0x00000f00 && w[42] == 0x3afb5079 && w[43] == 0x898e04e5 && w[44] == 0xe2ba3c2b
    requires w[45] == 0x000060c0 && w[46] == 0x053a37cd && w[47] == 0x74458547 && w[48] == 0xda9415ed && w[49] == 0x26380a16
    ensures Rounds(INITIAL, w, 50) == Hash(0x120731c5, 0xbaf39337, 0xafab40b2, 0x2806e11b, 0x8714787c)
  {
    hide Rounds;
    var h40 := Hash(0x32de1cba, 0x4c986405, 0xf718e5cf, 0x03d447f6, 0xf72eec32);
    var h41 := Hash(0xfc87dedf, 0x32de1cba, 0x53261901, 0xf718e5cf, 0x03d447f6);
    MajRound(w, 40, 0x4c986405, 0xf718e5cf, 0x03d447f6, 0x479865c7, 0x5bc39746, 2, h40, h41);
    var h42 := Hash(0x970a0d5c, 0xfc87dedf, 0x8cb7872e, 0x53261901, 0xf718e5cf);
    MajRound(w, 41, 0x32de1cba, 0x53261901, 0xf718e5cf, 0x731e1d8b, 0x90fbdbff, 1, h41, h42);
    var h43 := Hash(0x7f193dc5, 0x970a0d5c, 0xff21f7b7, 0x8cb7872e, 0x53261901);
    MajRound(w, 42, 0xfc87dedf, 0x8cb7872e, 0x53261901, 0xdca79f0f, 0xe141ab92, 3, h42, h43);
    var h44 := Hash(0xee1b1aaf, 0x7f193dc5, 0x25c28357, 0xff21f7b7, 0x8cb7872e);
    MajRound(w, 43, 0x970a0d5c, 0xff21f7b7, 0x8cb7872e, 0x9f23873e, 0xe327b8af, 2, h43, h44);
    var h45 := Hash(0x40f28e09, 0xee1b1aaf, 0x5fc64f71, 0x25c28357, 0xff21f7b7);
    MajRound(w, 44, 0x7f193dc5, 0x25c28357, 0xff21f7b7, 0x7f01b7d7, 0xc36355fd, 3, h44, h45);
    var h46 := Hash(0x1c51e1f2, 0x40f28e09, 0xfb86c6ab, 0x5fc64f71, 0x25c28357);
    MajRound(w, 45, 0xee1b1aaf, 0x5fc64f71, 0x25c28357, 0x6fc20b77, 0x1e51c128, 2, h45, h46);
    var h47 := Hash(0xa01b846c, 0x1c51e1f2, 0x503ca382, 0xfb86c6ab, 0x5fc64f71);
    MajRound(w, 46, 0x40f28e09, 0xfb86c6ab, 0x5fc64f71, 0x5bc6ce29, 0x8a3c3e43, 1, h46, h47);
    var h48 := Hash(0xbead02ca, 0xa01b846c, 0x8714787c, 0x503ca382, 0xfb86c6ab);
    MajRound(w, 47, 0x1c51e1f2, 0x503ca382, 0xfb86c6ab, 0x5814e3a2, 0x03708d94, 1, h47, h48);
    var h49 := Hash(0xbaf39337, 0xbead02ca, 0x2806e11b, 0x8714787c, 0x503ca382);
    MajRound(w, 48, 0xa01b846c, 0x8714787c, 0x503ca382, 0x801ca06c, 0xd5a05957, 3, h48, h49);
    var h50 := Hash(0x120731c5, 0xbaf39337, 0xafab40b2, 0x2806e11b, 0x8714787c);
    MajRound(w, 49, 0xbead02ca, 0x2806e11b, 0x8714787c, 0xae04605a, 0x5e7266f7, 2, h49, h50);
  }

  lemma Rounds60(w: seq<Word>)
    requires |w| == 80 && Rounds(INITIAL, w, 50) == Hash(0x120731c5, 0xbaf39337, 0xafab40b2, 0x2806e11b, 0x8714787c)
    requires w[50] == 0x626383a1 && w[51] == 0x4ebf54de && w[52] == 0x3835b44b && w[53] == 0x0000f600 && w[54] == 0x1e84c7a3
    requires w[55] == 0x98e04d98 && w[56] == 0x651d16a0 && w[57] == 0x62658ca1 && w[58] == 0x458544d6 && w[59] == 0x44584cb7
    ensures Rounds(INITIAL, w, 60) == Hash(0x3f52de5a, 0x09d785fd, 0x3498bfd4, 0xf211824f, 0xd79915ab)
  {
    hide Rounds;
    var h50 := Hash(0x120731c5, 0xbaf39337, 0xafab40b2, 0x2806e11b, 0x8714787c);
    var h51 := Hash(0x641db2ce, 0x120731c5, 0xeebce4cd, 0xafab40b2, 0x2806e11b);
    MajRound(w, 50, 0xbaf39337, 0xafab40b2, 0x2806e11b, 0xaaa3c133, 0x40e638a2, 2, h50, h51);
    var h52 := Hash(0x3847ad66, 0x641db2ce, 0x4481cc71, 0xeebce4cd, 0xafab40b2);
    MajRound(w, 51, 0x120731c5, 0xeebce4cd, 0xafab40b2, 0xaeaf60c5, 0x83b659cc, 2, h51, h52);
    var h53 := Hash(0xe490436d, 0x3847ad66, 0x99076cb3, 0x4481cc71, 0xeebce4cd);
    MajRound(w, 52, 0x641db2ce, 0x4481cc71, 0xeebce4cd, 0x649de4cd, 0x08f5acc7, 1, h52, h53);
    var h54 := Hash(0x27e9f1d8, 0xe490436d, 0x8e11eb59, 0x99076cb3, 0x4481cc71);
    MajRound(w, 53, 0x3847ad66, 0x99076cb3, 0x4481cc71, 0x1807ec73, 0x92086dbc, 2, h53, h54);
    var h55 := Hash(0x7b71f76d, 0x27e9f1d8, 0x792410db, 0x8e11eb59, 0x99076cb3);
    MajRound(w, 54, 0xe490436d, 0x8e11eb59, 0x99076cb3, 0x8c116b79, 0xfd3e3b04, 2, h54, h55);
    var h56 := Hash(0x5e6456af, 0x7b71f76d, 0x09fa7c76, 0x792410db, 0x8e11eb59);
    MajRound(w, 55, 0x27e9f1d8, 0x792410db, 0x8e11eb59, 0x2f21f1d9, 0x6e3eedaf, 2, h55, h56);
    var h57 := Hash(0xc846093f, 0x5e6456af, 0x5edc7ddb, 0x09fa7c76, 0x792410db);
    MajRound(w, 56, 0x7b71f76d, 0x09fa7c76, 0x792410db, 0x7970747f, 0xcc8ad5eb, 2, h56, h57);
    var h58 := Hash(0xd262ff50, 0xc846093f, 0xd79915ab, 0x5edc7ddb, 0x09fa7c76);
    MajRound(w, 57, 0x5e6456af, 0x5edc7ddb, 0x09fa7c76, 0x5efc7cff, 0x08c127f9, 1, h57, h58);
    var h59 := Hash(0x09d785fd, 0xd262ff50, 0xf211824f, 0xd79915ab, 0x5edc7ddb);
    MajRound(w, 58, 0xc846093f, 0xd79915ab, 0x5edc7ddb, 0xdedc1dbb, 0x4c5fea1a, 2, h58, h59);
    var h60 := Hash(0x3f52de5a, 0x09d785fd, 0x3498bfd4, 0xf211824f, 0xd79915ab);
    MajRound(w, 59, 0xd262ff50, 0xf211824f, 0xd79915ab, 0xd211974b, 0x3af0bfa1, 2, h59, h60);
  }

  lemma Rounds70(w: seq<Word>)
    requires |w| == 80 && Rounds(INITIAL, w, 60) == Hash(0x3f52de5a, 0x09d785fd, 0x3498bfd4, 0xf211824f, 0xd79915ab)
    requires w[60] == 0x7ba06619 && w[61] == 0x6380aea2 && w[62] == 0x0ae55269 && w[63] == 0x627b49a1 && w[64] == 0x7cd45c9d
    requires w[65] == 0x000f0000 && w[66] == 0xfb50753a && w[67] == 0xec6765e8 && w[68] == 0xba3c2be2 && w[69] == 0x0060c000
    ensures Rounds(INITIAL, w, 70) == Hash(0x3f2588c2, 0x497093c0, 0xde37534a, 0x030f7cad, 0x4405957e)
  {
    hide Rounds;
    var h60 := Hash(0x3f52de5a, 0x09d785fd, 0x3498bfd4, 0xf211824f, 0xd79915ab);
    var h61 := Hash(0xd756c147, 0x3f52de5a, 0x4275e17f, 0x3498bfd4, 0xf211824f);
    ParityRound(w, 60, 0x09d785fd, 0x3498bfd4, 0xf211824f, 0xcf5eb866, 0xea5bcb47, 3, h60, h61);
    var h62 := Hash(0x548c9cb2, 0xd756c147, 0x8fd4b796, 0x4275e17f, 0x3498bfd4);
    ParityRound(w, 61, 0x3f52de5a, 0x4275e17f, 0x3498bfd4, 0x49bf80f1, 0xead828fa, 3, h61, h62);
    var h63 := Hash(0xb66c020b, 0x548c9cb2, 0xf5d5b051, 0x8fd4b796, 0x4275e17f);
    ParityRound(w, 62, 0xd756c147, 0x8fd4b796, 0x4275e17f, 0x1af797ae, 0x9193964a, 1, h62, h63);
    var h64 := Hash(0x6b61c9e1, 0xb66c020b, 0x9523272c, 0xf5d5b051, 0x8fd4b796);
    ParityRound(w, 63, 0x548c9cb2, 0xf5d5b051, 0x8fd4b796, 0x2e8d9b75, 0xcd804176, 2, h63, h64);
    var h65 := Hash(0x19dfa7ac, 0x6b61c9e1, 0xed9b0082, 0x9523272c, 0xf5d5b051);
    ParityRound(w, 64, 0xb66c020b, 0x9523272c, 0xf5d5b051, 0xd69a9576, 0x6c393c2d, 3, h64, h65);
    var h66 := Hash(0x101655f9, 0x19dfa7ac, 0x5ad87278, 0xed9b0082, 0x9523272c);
    ParityRound(w, 65, 0x6b61c9e1, 0xed9b0082, 0x9523272c, 0x13d9ee4f, 0x3bf4f583, 2, h65, h66);
    var h67 := Hash(0x0c3df2b4, 0x101655f9, 0x0677e9eb, 0x5ad87278, 0xed9b0082);
    ParityRound(w, 66, 0x19dfa7ac, 0x5ad87278, 0xed9b0082, 0xae9cd556, 0x02cabf22, 3, h66, h67);
    var h68 := Hash(0x78dd4d2b, 0x0c3df2b4, 0x4405957e, 0x0677e9eb, 0x5ad87278);
    ParityRound(w, 67, 0x101655f9, 0x0677e9eb, 0x5ad87278, 0x4cb9ce6a, 0x87be5681, 3, h67, h68);
    var h69 := Hash(0x497093c0, 0x78dd4d2b, 0x030f7cad, 0x4405957e, 0x0677e9eb);
    ParityRound(w, 68, 0x0c3df2b4, 0x4405957e, 0x0677e9eb, 0x4e4f8e21, 0x1ba9a56f, 2, h68, h69);
    var h70 := Hash(0x3f2588c2, 0x497093c0, 0xde37534a, 0x030f7cad, 0x4405957e);
    ParityRound(w, 69, 0x78dd4d2b, 0x030f7cad, 0x4405957e, 0x3fd7a4f8, 0x2e127809, 1, h69, h70);
  }

  lemma Rounds80(w: seq<Word>)
    requires |w| == 80 && Rounds(INITIAL, w, 70) == Hash(0x3f2588c2, 0x497093c0, 0xde37534a, 0x030f7cad, 0x4405957e)
    requires w[70] == 0x3a37cd05 && w[71] == 0x458546f4 && w[72] == 0xb8599dd6 && w[73] == 0x380a1a26 && w[74] == 0x01e02203
    requires w[75] == 0xe7cc3456 && w[76] == 0xe6e60b69 && w[77] == 0x00f60a00 && w[78] == 0x5795ef4f && w[79] == 0x822e0879
    ensures Rounds(INITIAL, w, 80) == Hash(0x42541b35, 0x5738d5e1, 0x21834873, 0x681e6df6, 0xd8fdf6ad)
  {
    hide Rounds;
    var h70 := Hash(0x3f2588c2, 0x497093c0, 0xde37534a, 0x030f7cad, 0x4405957e);
    var h71 := Hash(0xc199f8c7, 0x3f2588c2, 0x125c24f0, 0xde37534a, 0x030f7cad);
    ParityRound(w, 70, 0x497093c0, 0xde37534a, 0x030f7cad, 0x9448bc27, 0xe4b11847, 2, h70, h71);
    var h72 := Hash(0x39859de7, 0xc199f8c7, 0x8fc96230, 0x125c24f0, 0xde37534a);
    ParityRound(w, 71, 0x3f2588c2, 0x125c24f0, 0xde37534a, 0xf34eff78, 0x333f18f8, 2, h71, h72);
    var h73 := Hash(0xedb42de4, 0x39859de7, 0xf0667e31, 0x8fc96230, 0x125c24f0);
    ParityRound(w, 72, 0xc199f8c7, 0x8fc96230, 0x125c24f0, 0x5c0cbe07, 0x30b3bce7, 2, h72, h73);
    var h74 := Hash(0x11793f6f, 0xedb42de4, 0xce616779, 0xf0667e31, 0x8fc96230);
    ParityRound(w, 73, 0x39859de7, 0xf0667e31, 0x8fc96230, 0x462a81e6, 0xb685bc9d, 2, h73, h74);
    var h75 := Hash(0x5ee76897, 0x11793f6f, 0x3b6d0b79, 0xce616779, 0xf0667e31);
    ParityRound(w, 74, 0xedb42de4, 0xce616779, 0xf0667e31, 0xd3b334ac, 0x2f27ede2, 2, h74, h75);
    var h76 := Hash(0x63f7dab7, 0x5ee76897, 0xc45e4fdb, 0x3b6d0b79, 0xce616779);
    ParityRound(w, 75, 0x11793f6f, 0x3b6d0b79, 0xce616779, 0xe475536f, 0xdced12eb, 4, h75, h76);
    var h77 := Hash(0xa079b7d9, 0x63f7dab7, 0xd7b9da25, 0xc45e4fdb, 0x3b6d0b79);
    ParityRound(w, 76, 0x5ee76897, 0xc45e4fdb, 0x3b6d0b79, 0xa1d42c35, 0x7efb56ec, 3, h76, h77);
    var h78 := Hash(0x860d21cc, 0xa079b7d9, 0xd8fdf6ad, 0xd7b9da25, 0xc45e4fdb);
    ParityRound(w, 77, 0x63f7dab7, 0xd7b9da25, 0xc45e4fdb, 0x70104f49, 0x0f36fb34, 1, h77, h78);
    var h79 := Hash(0x5738d5e1, 0x860d21cc, 0x681e6df6, 0xd8fdf6ad, 0xd7b9da25);
    ParityRound(w, 78, 0xa079b7d9, 0xd8fdf6ad, 0xd7b9da25, 0xaf3d9b51, 0xc1a43990, 3, h78, h79);
    var h80 := Hash(0x42541b35, 0x5738d5e1, 0x21834873, 0x681e6df6, 0xd8fdf6ad);
    ParityRound(w, 79, 0x860d21cc, 0x681e6df6, 0xd8fdf6ad, 0x36eeba97, 0xe71abc2a, 3, h79, h80);
  }

  // ---------- the message ----------

  /** The one block of the message. */
  predicate IsBlock(w: seq<Word>) {
    && |w| >= 16 && w[0] == 0x61626380 && w[15] == 0x18
    && forall i :: 1 <= i < 15 ==> w[i] == 0
  }

  lemma PaddedAbc()
    ensures var p := Pad([97, 98, 99]); |p| == 64 && p[0] == 97 && p[1] == 98 && p[2] == 99 && p[3] == 0x80 && p[63] == 24
    ensures forall i :: 4 <= i < 63 ==> Pad([97, 98, 99])[i] == 0
  {
    var m: seq<Byte> := [97, 98, 99];
    var length := LengthBytes(24);
    assert length == [0, 0, 0, 0, 0, 0, 0, 24];
    assert PadZeros(3) == 52 && |Zeros(52)| == 52;
  }

  lemma BlockAbc()
    ensures |Words(Pad([97, 98, 99]))| == 16 && IsBlock(Words(Pad([97, 98, 99])))
  {
    hide Words, Pad;
    PaddedAbc();
    forall i | 0 <= i < 16
      ensures Words(Pad([97, 98, 99]))[i] == WordAt(Pad([97, 98, 99]), 4 * i)
    {
      WordsIndex(Pad([97, 98, 99]), i);
    }
  }

  lemma ScheduleAbc(b: seq<Word>)
    requires |b| == 16 && IsBlock(b)
    ensures IsBlock(Schedule(b, 80)) && IsSchedule(Schedule(b, 80))
  {
    hide Schedule, WordFollows;
    forall k | 0 <= k < 80 {
      ScheduleFollows(b, 80, k);
    }
  }

  lemma AllRounds(w: seq<Word>)
    requires IsBlock(w) && IsSchedule(w)
    ensures Rounds(INITIAL, w, 80) == Hash(0x42541b35, 0x5738d5e1, 0x21834873, 0x681e6df6, 0xd8fdf6ad)
  {
    hide Rounds, WordFollows;
    Words24(w);
    Words32(w);
    Words40(w);
    Words48(w);
    Words56(w);
    Words64(w);
    Words72(w);
    Words80(w);
    Rounds10(w);
    Rounds20(w);
    Rounds30(w);
    Rounds40(w);
    Rounds50(w);
    Rounds60(w);
    Rounds70(w);
    Rounds80(w);
  }

  /** The hash of a message of one block. */
  lemma OneBlock(m: seq<Byte>, w: seq<Word>)
    requires Words(Pad(m)) == w && |w| == 16
    ensures Digest(m) == HashBytes(Sum(INITIAL, Rounds(INITIAL, Schedule(w, 80), 80)))
  {
    hide Words, Pad, Schedule, Rounds, Sum, HashBytes;
    NoBlocks();
    assert w[..0] == [] && w[0..] == w;
    assert Fold(w) == Compress(Fold(w[..0]), w[0..]);
  }

  lemma NoBlocks()
    ensures Fold([]) == INITIAL
  {
  }

  lemma SumAbc()
    ensures Sum(INITIAL, Hash(0x42541b35, 0x5738d5e1, 0x21834873, 0x681e6df6, 0xd8fdf6ad)) == Hash(0xa9993e36, 0x4706816a, 0xba3e2571, 0x7850c26c, 0x9cd0d89d)
  {
  }

  lemma BytesAbc()
    ensures HashBytes(Hash(0xa9993e36, 0x4706816a, 0xba3e2571, 0x7850c26c, 0x9cd0d89d)) ==
            [0xa9, 0x99, 0x3e, 0x36, 0x47, 0x06, 0x81, 0x6a, 0xba, 0x3e, 0x25, 0x71, 0x78, 0x50, 0xc2, 0x6c, 0x9c, 0xd0, 0xd8, 0x9d]
  {
    assert WordBytes(0xa9993e36) == [0xa9, 0x99, 0x3e, 0x36];
    assert WordBytes(0x4706816a) == [0x47, 0x06, 0x81, 0x6a];
    assert WordBytes(0xba3e2571) == [0xba, 0x3e, 0x25, 0x71];
    assert WordBytes(0x7850c26c) == [0x78, 0x50, 0xc2, 0x6c];
    assert WordBytes(0x9cd0d89d) == [0x9c, 0xd0, 0xd8, 0x9d];
  }

  /** The digest of "abc", as the test in section 7.3 of RFC 3174 has it. */
  lemma KnownAnswer()
    ensures Digest([97, 98, 99]) ==
            [0xa9, 0x99, 0x3e, 0x36, 0x47, 0x06, 0x81, 0x6a, 0xba, 0x3e, 0x25, 0x71, 0x78, 0x50, 0xc2, 0x6c, 0x9c, 0xd0, 0xd8, 0x9d]
  {
    hide Words, Pad, Schedule, Rounds, Digest, HashBytes, Sum;
    BlockAbc();
    var b := Words(Pad([97, 98, 99]));
    ScheduleAbc(b);
    AllRounds(Schedule(b, 80));
    OneBlock([97, 98, 99], b);
    SumAbc();
    BytesAbc();
  }
}
