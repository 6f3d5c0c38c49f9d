/** Known XXH64 values. Together the two strings use every part of the digest: a full block, the convergence
  * of the four lanes, eight bytes, four bytes and single bytes of a remainder.
  */
module XxHash64Values {
  import opened XxHash64Spec

  // ---------- "hello world" ----------

  lemma HelloWorld()
    ensures Digest(0, [104, 101, 108, 108, 111, 32, 119, 111, 114, 108, 100]) == 0x45ab_6734_b21e_6968
  {
    hide Eights, Avalanche, Sum, LengthWord, Digest;
    var data: seq<Byte> := [104, 101, 108, 108, 111, 32, 119, 111, 114, 108, 100];
    ShortDigest(0, data);
    HelloStart();
    HelloRest(data);
    HelloEnd();
  }

  lemma HelloStart()
    ensures Sum(Sum(0, PRIME5), LengthWord(11)) == 0x27d4_eb2f_1656_67d0
  {}

  lemma HelloRest(data: seq<Byte>)
    requires data == [104, 101, 108, 108, 111, 32, 119, 111, 114, 108, 100]
    ensures Eights(0x27d4_eb2f_1656_67d0, data) == 0xe2ad_f830_d2a7_33a0
  {
    hide EatEight, EatOne, Load, Ones;
    assert data[..8] == [104, 101, 108, 108, 111, 32, 119, 111] && data[8..] == [114, 108, 100];
    HelloEight();
    ThreeOnes(0x3d39_ae0e_d117_549b, 114, 108, 100);
    HelloOnes();
  }

  lemma HelloEight()
    ensures EatEight(0x27d4_eb2f_1656_67d0, Load([104, 101, 108, 108, 111, 32, 119, 111])) == 0x3d39_ae0e_d117_549b
  {
    hide EatEight, Load;
    EightBytes(104, 101, 108, 108, 111, 32, 119, 111);
    hide WithByte;
    HelloWord();
    HelloEaten();
  }

  lemma HelloWord()
    ensures Packed(104, 101, 108, 108, 111, 32, 119, 111) == 0x6f77_206f_6c6c_6568
  {}

  lemma HelloEaten()
    ensures EatEight(0x27d4_eb2f_1656_67d0, 0x6f77_206f_6c6c_6568) == 0x3d39_ae0e_d117_549b
  {}

  lemma HelloOnes()
    ensures EatOne(0x3d39_ae0e_d117_549b, 114) == 0xb11f_11db_720e_31e9
    ensures EatOne(0xb11f_11db_720e_31e9, 108) == 0x6329_55b9_a1a1_224a
    ensures EatOne(0x6329_55b9_a1a1_224a, 100) == 0xe2ad_f830_d2a7_33a0
  {}

  lemma HelloEnd()
    ensures Avalanche(0xe2ad_f830_d2a7_33a0) == 0x45ab_6734_b21e_6968
  {}

  // ---------- shared ----------

  function Packed(a: Byte, b: Byte, c: Byte, d: Byte, e: Byte, f: Byte, g: Byte, h: Byte): Word {
    WithByte(a, WithByte(b, WithByte(c, WithByte(d, WithByte(e, WithByte(f, WithByte(g, WithByte(h, 0))))))))
  }

  lemma LoadCons(a: Byte, tail: seq<Byte>)
    ensures Load([a] + tail) == WithByte(a, Load(tail))
  {
    hide WithByte;
    assert ([a] + tail)[1..] == tail;
  }

  lemma FourThen(a: Byte, b: Byte, c: Byte, d: Byte, tail: seq<Byte>)
    ensures Load([a, b, c, d] + tail) == WithByte(a, WithByte(b, WithByte(c, WithByte(d, Load(tail)))))
  {
    hide WithByte, Load;
    LoadCons(d, tail);
    LoadCons(c, [d] + tail);
    LoadCons(b, [c] + ([d] + tail));
    LoadCons(a, [b] + ([c] + ([d] + tail)));
    assert [a] + ([b] + ([c] + ([d] + tail))) == [a, b, c, d] + tail;
  }

  lemma FourBytes(e: Byte, f: Byte, g: Byte, h: Byte)
    ensures Load([e, f, g, h]) == WithByte(e, WithByte(f, WithByte(g, WithByte(h, 0))))
  {
    hide WithByte;
    FourThen(e, f, g, h, []);
    assert [e, f, g, h] + [] == [e, f, g, h];
  }

  lemma EightBytes(a: Byte, b: Byte, c: Byte, d: Byte, e: Byte, f: Byte, g: Byte, h: Byte)
    ensures Load([a, b, c, d, e, f, g, h]) == Packed(a, b, c, d, e, f, g, h)
  {
    hide WithByte, Load;
    FourThen(a, b, c, d, [e, f, g, h]);
    FourBytes(e, f, g, h);
    assert [a, b, c, d] + [e, f, g, h] == [a, b, c, d, e, f, g, h];
  }

  lemma OnesCons(r: Word, a: Byte, tail: seq<Byte>)
    ensures Ones(r, [a] + tail) == Ones(EatOne(r, a), tail)
  {
    hide EatOne;
    assert ([a] + tail)[1..] == tail;
  }

  lemma ThreeOnes(r: Word, a: Byte, b: Byte, c: Byte)
    ensures Ones(r, [a, b, c]) == EatOne(EatOne(EatOne(r, a), b), c)
  {
    hide EatOne;
    OnesCons(r, a, [b, c]);
    OnesCons(EatOne(r, a), b, [c]);
    OnesCons(EatOne(EatOne(r, a), b), c, []);
    assert [a] + [b, c] == [a, b, c] && [b] + [c] == [b, c] && [c] + [] == [c];
  }

  // ---------- "Nobody inspects the spammish repetition" ----------

  function NobodyData(): seq<Byte> {
    [78, 111, 98, 111, 100, 121, 32, 105] + [110, 115, 112, 101, 99, 116, 115, 32]
    + [116, 104, 101, 32, 115, 112, 97, 109] + [109, 105, 115, 104, 32, 114, 101, 112]
    + [101, 116, 105, 116, 105, 111, 110]
  }

  lemma Nobody()
    ensures Digest(0, NobodyData()) == 0xfbce_a83c_8a37_8bf1
  {
    hide Process, Start, Eights, Avalanche, Initial, Digest;
    var a, b: seq<Byte> := [78, 111, 98, 111, 100, 121, 32, 105], [110, 115, 112, 101, 99, 116, 115, 32];
    var c, d: seq<Byte> := [116, 104, 101, 32, 115, 112, 97, 109], [109, 105, 115, 104, 32, 114, 101, 112];
    var rest: seq<Byte> := [101, 116, 105, 116, 105, 111, 110];
    OneBlockAndRest(a + b + c + d, rest);
    FourLanes(Initial(0), a, b, c, d);
    NobodyBlock();
    NobodyStart();
    NobodyRest(rest);
    NobodyEnd();
  }

  lemma FourLanes(s: State, a: seq<Byte>, b: seq<Byte>, c: seq<Byte>, d: seq<Byte>)
    requires |a| == |b| == |c| == |d| == 8
    ensures Process(s, a + b + c + d)
         == State(ProcessSingle(s.s0, Load(a)), ProcessSingle(s.s1, Load(b)), ProcessSingle(s.s2, Load(c)), ProcessSingle(s.s3, Load(d)))
  {
    hide Load, ProcessSingle;
    var block := a + b + c + d;
    assert block[..8] == a;
    assert block[8..16] == b;
    assert block[16..24] == c;
    assert block[24..] == d;
  }

  lemma OneBlockAndRest(block: seq<Byte>, rest: seq<Byte>)
    requires |block| == MAX_BUFFER_SIZE && |rest| == 7
    ensures Digest(0, block + rest) == Avalanche(Eights(Start(Process(Initial(0), block), 39), rest))
  {
    hide Process, Start, Eights, Avalanche, Initial;
    var data := block + rest;
    assert data[..MAX_BUFFER_SIZE] == block && data[MAX_BUFFER_SIZE..] == rest;
    ShortFold(Process(Initial(0), block), rest);
  }

  const NOBODY: State := State(0x3724_5127_a406_7e4b, 0x1b30_2b0a_818f_92cf, 0xcd62_d843_d058_0fca, 0x1c16_e43e_f214_2a4a)

  lemma NobodyBlock()
    ensures ProcessSingle(Initial(0).s0, Load([78, 111, 98, 111, 100, 121, 32, 105])) == NOBODY.s0
    ensures ProcessSingle(Initial(0).s1, Load([110, 115, 112, 101, 99, 116, 115, 32])) == NOBODY.s1
    ensures ProcessSingle(Initial(0).s2, Load([116, 104, 101, 32, 115, 112, 97, 109])) == NOBODY.s2
    ensures ProcessSingle(Initial(0).s3, Load([109, 105, 115, 104, 32, 114, 101, 112])) == NOBODY.s3
  {
    hide Load, ProcessSingle, Packed, Initial;
    EightBytes(78, 111, 98, 111, 100, 121, 32, 105);
    EightBytes(110, 115, 112, 101, 99, 116, 115, 32);
    EightBytes(116, 104, 101, 32, 115, 112, 97, 109);
    EightBytes(109, 105, 115, 104, 32, 114, 101, 112);
    NobodyWords();
    NobodyLanes();
  }

  lemma NobodyWords()
    ensures Packed(78, 111, 98, 111, 100, 121, 32, 105) == 0x6920_7964_6f62_6f4e
    ensures Packed(110, 115, 112, 101, 99, 116, 115, 32) == 0x2073_7463_6570_736e
    ensures Packed(116, 104, 101, 32, 115, 112, 97, 109) == 0x6d61_7073_2065_6874
    ensures Packed(109, 105, 115, 104, 32, 114, 101, 112) == 0x7065_7220_6873_696d
  {}

  lemma NobodyLanes()
    ensures ProcessSingle(Initial(0).s0, 0x6920_7964_6f62_6f4e) == NOBODY.s0
    ensures ProcessSingle(Initial(0).s1, 0x2073_7463_6570_736e) == NOBODY.s1
    ensures ProcessSingle(Initial(0).s2, 0x6d61_7073_2065_6874) == NOBODY.s2
    ensures ProcessSingle(Initial(0).s3, 0x7065_7220_6873_696d) == NOBODY.s3
  {}

  lemma NobodyStart()
    ensures Start(NOBODY, 39) == 0x84f2_2c42_1a11_a8dc
  {
    hide Sum, MergeWord, LengthWord, Rotate1, Rotate7, Rotate12, Rotate18;
    NobodyRotated();
    NobodyMerged();
    NobodyLength();
  }

  lemma NobodyRotated()
    ensures Sum(Sum(Sum(Rotate1(NOBODY.s0), Rotate7(NOBODY.s1)), Rotate12(NOBODY.s2)), Rotate18(NOBODY.s3)) == 0xc4de_2ce6_39fb_8154
  {}

  lemma NobodyMerged()
    ensures MergeWord(0xc4de_2ce6_39fb_8154, NOBODY.s0) == 0x30d4_0ddd_00ae_a144
    ensures MergeWord(0x30d4_0ddd_00ae_a144, NOBODY.s1) == 0xe5a1_f095_bf49_8698
    ensures MergeWord(0xe5a1_f095_bf49_8698, NOBODY.s2) == 0xf9ce_e721_e748_096d
    ensures MergeWord(0xf9ce_e721_e748_096d, NOBODY.s3) == 0x84f2_2c42_1a11_a8b5
  {}

  lemma NobodyLength()
    ensures Sum(0x84f2_2c42_1a11_a8b5, LengthWord(39)) == 0x84f2_2c42_1a11_a8dc
  {}

  lemma NobodyRest(rest: seq<Byte>)
    requires rest == [101, 116, 105, 116, 105, 111, 110]
    ensures Eights(0x84f2_2c42_1a11_a8dc, rest) == 0x1d0a_4748_3b37_cc24
  {
    hide EatFour, EatOne, Load, Ones, WithByte;
    assert rest[..4] == [101, 116, 105, 116] && rest[4..] == [105, 111, 110];
    FourBytes(101, 116, 105, 116);
    NobodyFour();
    ThreeOnes(0x9fca_0f5d_0aaa_110f, 105, 111, 110);
    NobodyOnes();
  }

  lemma NobodyFour()
    ensures WithByte(101, WithByte(116, WithByte(105, WithByte(116, 0)))) == 0x7469_7465
    ensures EatFour(0x84f2_2c42_1a11_a8dc, 0x7469_7465) == 0x9fca_0f5d_0aaa_110f
  {}

  lemma NobodyOnes()
    ensures EatOne(0x9fca_0f5d_0aaa_110f, 105) == 0x7696_7154_6f21_ba14
    ensures EatOne(0x7696_7154_6f21_ba14, 111) == 0xeae9_b643_c5f9_4e52
    ensures EatOne(0xeae9_b643_c5f9_4e52, 110) == 0x1d0a_4748_3b37_cc24
  {}

  lemma NobodyEnd()
    ensures Avalanche(0x1d0a_4748_3b37_cc24) == 0xfbce_a83c_8a37_8bf1
  {}
}
