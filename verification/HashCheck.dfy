/**
  The check values of the hashes: what plugins/tests/transform_plugin_tests.cpp expects for the nine digits,
  and for xxHash a longer text that goes through the lanes.
 */
module HashCheck {
  import opened Common
  import opened Streaming
  import opened Words
  import opened Murmur3
  import opened XxHash

  /** Four bytes at a position, as a word. */
  lemma WordAt(s: seq<byte>, i: nat)
    requires i + 4 <= |s|
    ensures Read32le(s[i..]) == Joined(s[i], s[i + 1], s[i + 2], s[i + 3])
  {
    hide Joined;
  }

  lemma LongAt(s: seq<byte>, i: nat)
    requires i + 8 <= |s|
    ensures Read64le(s[i..]) ==
            Wide(Joined(s[i], s[i + 1], s[i + 2], s[i + 3]), Joined(s[i + 4], s[i + 5], s[i + 6], s[i + 7]))
  {
    hide Joined, Wide;
    WordAt(s, i);
    WordAt(s, i + 4);
    assert s[i..][4..] == s[i + 4..];
  }

  // ---------- the nine digits ----------

  lemma DigitWords()
    ensures Joined(0x31, 0x32, 0x33, 0x34) == 0x34333231 && Joined(0x35, 0x36, 0x37, 0x38) == 0x38373635
    ensures Wide(0x34333231, 0x38373635) == 0x3837363534333231
    ensures Low32(9) == 9 && Low64(9) == 9
  {
  }

  lemma MurmurSteps()
    ensures Scramble(0x34333231) == 0xAA6806F3 && Mixed(0, 0xAA6806F3) == 0xEAACB5E5
    ensures Scramble(0x38373635) == 0x1AE88AAE && Mixed(0xEAACB5E5, 0x1AE88AAE) == 0x8DE3E18C
    ensures Scramble(0x39) == 0xD1D5EA94
    ensures Avalanche(0x8DE3E18C ^ 0xD1D5EA94 ^ 9) == 0xB4FEF382
  {
  }

  lemma MurmurTail(h: bv32)
    ensures TailWord([0x39]) == 0x39 && Finish(h, [0x39], 9) == Avalanche(h ^ Scramble(0x39) ^ Low32(9))
  {
    hide Scramble, Avalanche, Low32;
  }

  lemma MurmurCheck()
    ensures Murmur3.Hash(NINE_DIGITS) == 0xB4FEF382
  {
    hide Scramble, Mixed, Avalanche, Finish, Joined, Low32;
    DigitWords();
    MurmurSteps();
    MurmurTail(0x8DE3E18C);
    var d, rest := NINE_DIGITS, NINE_DIGITS[4..];
    WordAt(d[..4], 0);
    WordAt(rest[..4], 0);
    assert d[..4][0..] == d[..4] && rest[..4][0..] == rest[..4] && rest[4..] == [0x39];
    assert Mix(0, d[..4]) == 0xEAACB5E5 && Mix(0xEAACB5E5, rest[..4]) == 0x8DE3E18C;
    hide Mix;
    assert Folded(Mix, 4, 0x8DE3E18C, rest[4..]) == 0x8DE3E18C;
    assert Folded(Mix, 4, 0xEAACB5E5, rest) == 0x8DE3E18C;
    assert Remainder(4, rest) == Remainder(4, rest[4..]) == [0x39];
  }

  lemma Steps32()
    ensures P5 + 9 == 0x165667BA
    ensures Word32(0x165667BA, 0x34333231) == 0x29160ABF && Word32(0x29160ABF, 0x38373635) == 0xA3C5CEF1
    ensures Byte32(0xA3C5CEF1, 0x39) == 0x3116DC68 && Avalanche32(0x3116DC68) == 0x937BAD67
  {
  }

  lemma XxHash32Check()
    ensures Hash32(NINE_DIGITS) == 0x937BAD67
  {
    hide Word32, Byte32, Avalanche32, Stripe32, Low32, Joined;
    DigitWords();
    Steps32();
    var d, rest := NINE_DIGITS, NINE_DIGITS[4..];
    WordAt(d, 0);
    WordAt(d, 4);
    assert d[0..] == d && rest[4..] == [0x39] && rest[4..][1..] == [];
    hide Read32le;
    assert Tail32(0x3116DC68, rest[4..][1..]) == 0x3116DC68;
    assert Tail32(0xA3C5CEF1, rest[4..]) == 0x3116DC68;
    assert Tail32(0x29160ABF, rest) == 0x3116DC68;
  }

  lemma Steps64()
    ensures Q5 + 9 == 0x27D4EB2F165667CE && Round64(0, 0x3837363534333231) == 0xA3FADDCE22E40BB1
    ensures Turned64(0x27D4EB2F165667CE, 0xA3FADDCE22E40BB1) == 0x037F5A72920D0BE4
    ensures Byte64(0x037F5A72920D0BE4, 0x39) == 0xE200A906FCE72C58
    ensures Avalanche64(0xE200A906FCE72C58) == 0x8CB841DB40E6AE83
  {
  }

  lemma XxHash64Check()
    ensures Hash64(NINE_DIGITS) == 0x8CB841DB40E6AE83
  {
    hide Round64, Turned64, Word64, Byte64, Avalanche64, Stripe64, Low64, Joined, Wide;
    DigitWords();
    Steps64();
    var d, rest := NINE_DIGITS, NINE_DIGITS[8..];
    LongAt(d, 0);
    assert d[0..] == d && rest == [0x39] && rest[1..] == [];
    hide Read32le, Read64le;
    assert Tail64(0xE200A906FCE72C58, rest[1..]) == 0xE200A906FCE72C58;
    assert Tail64(0x037F5A72920D0BE4, rest) == 0xE200A906FCE72C58;
  }

  // ---------- a text longer than a stripe ----------

  /** "Nobody inspects the spammish repetition" */
  const TEXT: seq<byte> :=
    [0x4E, 0x6F, 0x62, 0x6F, 0x64, 0x79, 0x20, 0x69, 0x6E, 0x73, 0x70, 0x65, 0x63, 0x74, 0x73, 0x20,
     0x74, 0x68, 0x65, 0x20, 0x73, 0x70, 0x61, 0x6D, 0x6D, 0x69, 0x73, 0x68, 0x20, 0x72, 0x65, 0x70,
     0x65, 0x74, 0x69, 0x74, 0x69, 0x6F, 0x6E]

  /** The lanes of the 32-bit hash after one stripe of the text and after two. */
  const ONE_STRIPE: Lanes<bv32> := Lanes(0x046A700A, 0xBFADF8E3, 0x5B32B4AA, 0x137E5555)
  const TWO_STRIPES: Lanes<bv32> := Lanes(0x719A836E, 0x514C1DE8, 0x97FA4BA2, 0x242A97A2)

  lemma TextWords()
    ensures Joined(0x4E, 0x6F, 0x62, 0x6F) == 0x6F626F4E
    ensures Joined(0x64, 0x79, 0x20, 0x69) == 0x69207964
    ensures Joined(0x6E, 0x73, 0x70, 0x65) == 0x6570736E
    ensures Joined(0x63, 0x74, 0x73, 0x20) == 0x20737463
    ensures Joined(0x74, 0x68, 0x65, 0x20) == 0x20656874
    ensures Joined(0x73, 0x70, 0x61, 0x6D) == 0x6D617073
    ensures Joined(0x6D, 0x69, 0x73, 0x68) == 0x6873696D
    ensures Joined(0x20, 0x72, 0x65, 0x70) == 0x70657220
    ensures Joined(0x65, 0x74, 0x69, 0x74) == 0x74697465
    ensures Low32(39) == 39 && Low64(39) == 39
  {
  }

  lemma Rounds32()
    ensures START32 == Lanes(0x24234428, 0x85EBCA77, 0, 0x61C8864F)
    ensures Round32(0x24234428, 0x6F626F4E) == 0x046A700A
    ensures Round32(0x85EBCA77, 0x69207964) == 0xBFADF8E3
    ensures Round32(0, 0x6570736E) == 0x5B32B4AA
    ensures Round32(0x61C8864F, 0x20737463) == 0x137E5555
    ensures Round32(0x046A700A, 0x20656874) == 0x719A836E
    ensures Round32(0xBFADF8E3, 0x6D617073) == 0x514C1DE8
    ensures Round32(0x5B32B4AA, 0x6873696D) == 0x97FA4BA2
    ensures Round32(0x137E5555, 0x70657220) == 0x242A97A2
    ensures Sum32(TWO_STRIPES) == 0x8C86B52D && 0x8C86B52D + 39 == 0x8C86B554
  {
  }

  lemma Ends32()
    ensures Word32(0x8C86B554, 0x74697465) == 0x09B51544 && Byte32(0x09B51544, 0x69) == 0xCDEFD3C9
    ensures Byte32(0xCDEFD3C9, 0x6F) == 0x3852087B && Byte32(0x3852087B, 0x6E) == 0xB3A7011B
    ensures Avalanche32(0xB3A7011B) == 0xE2293B2F
  {
  }

  /** A stripe read at a position of a text. */
  lemma StripeAt32(v: Lanes<bv32>, s: seq<byte>, i: nat)
    requires i + 16 <= |s|
    ensures Stripe32(v, s[i..][..16]) ==
            Lanes(Round32(v.v1, Joined(s[i], s[i + 1], s[i + 2], s[i + 3])),
                  Round32(v.v2, Joined(s[i + 4], s[i + 5], s[i + 6], s[i + 7])),
                  Round32(v.v3, Joined(s[i + 8], s[i + 9], s[i + 10], s[i + 11])),
                  Round32(v.v4, Joined(s[i + 12], s[i + 13], s[i + 14], s[i + 15])))
  {
    hide Joined, Round32;
    var t := s[i..][..16];
    assert t[0..] == t;
    WordAt(t, 0);
    WordAt(t, 4);
    WordAt(t, 8);
    WordAt(t, 12);
    hide Read32le;
  }

  lemma FirstWords()
    ensures Joined(TEXT[0], TEXT[1], TEXT[2], TEXT[3]) == 0x6F626F4E
    ensures Joined(TEXT[4], TEXT[5], TEXT[6], TEXT[7]) == 0x69207964
    ensures Joined(TEXT[8], TEXT[9], TEXT[10], TEXT[11]) == 0x6570736E
    ensures Joined(TEXT[12], TEXT[13], TEXT[14], TEXT[15]) == 0x20737463
  {
    hide Joined;
    TextWords();
  }

  lemma FirstStripe32()
    ensures Stripe32(START32, TEXT[0..][..16]) == ONE_STRIPE
  {
    hide Joined, Round32, Sum32, Stripe32;
    FirstWords();
    Rounds32();
    StripeAt32(START32, TEXT, 0);
  }

  lemma SecondWords()
    ensures Joined(TEXT[16], TEXT[17], TEXT[18], TEXT[19]) == 0x20656874
    ensures Joined(TEXT[20], TEXT[21], TEXT[22], TEXT[23]) == 0x6D617073
    ensures Joined(TEXT[24], TEXT[25], TEXT[26], TEXT[27]) == 0x6873696D
    ensures Joined(TEXT[28], TEXT[29], TEXT[30], TEXT[31]) == 0x70657220
  {
    hide Joined;
    TextWords();
  }

  lemma SecondStripe32()
    ensures Stripe32(ONE_STRIPE, TEXT[16..][..16]) == TWO_STRIPES
  {
    hide Joined, Round32, Sum32, Stripe32;
    SecondWords();
    Rounds32();
    StripeAt32(ONE_STRIPE, TEXT, 16);
  }

  lemma Lanes32()
    ensures Folded(Stripe32, 16, START32, TEXT) == TWO_STRIPES && Remainder(16, TEXT) == TEXT[32..]
  {
    hide Stripe32;
    FirstStripe32();
    SecondStripe32();
    var first, second := TEXT[16..], TEXT[32..];
    assert TEXT[0..] == TEXT && first[16..] == second;
    assert Folded(Stripe32, 16, TWO_STRIPES, second) == TWO_STRIPES;
    assert Folded(Stripe32, 16, ONE_STRIPE, first) == TWO_STRIPES;
    assert Remainder(16, first) == Remainder(16, second) == second;
  }

  lemma SevenLeft32(h: bv32, t: seq<byte>)
    requires |t| == 7
    ensures Tail32(h, t) == Byte32(Byte32(Byte32(Word32(h, Read32le(t)), t[4]), t[5]), t[6])
  {
    hide Word32, Byte32, Read32le;
    var h1 := Word32(h, Read32le(t));
    var h2 := Byte32(h1, t[4]);
    assert Tail32(h1, t[4..]) == Tail32(h2, t[4..][1..]);
    var h3, last := Byte32(h2, t[5]), t[4..][1..][1..];
    assert Tail32(h2, t[4..][1..]) == Tail32(h3, last);
    assert Tail32(h3, last) == Tail32(Byte32(h3, t[6]), last[1..]) && last[1..] == [];
  }

  lemma LongText32()
    ensures Hash32(TEXT) == 0xE2293B2F
  {
    hide Word32, Byte32, Avalanche32, Stripe32, Sum32, Low32, Joined, Folded, Remainder, Tail32, Read32le;
    TextWords();
    Rounds32();
    Ends32();
    Lanes32();
    WordAt(TEXT, 32);
    SevenLeft32(0x8C86B554, TEXT[32..]);
  }

  lemma Rounds64()
    ensures START64 == Lanes(0x60EA27EEADC0B5D6, 0xC2B2AE3D27D4EB4F, 0, 0x61C8864E7A143579)
    ensures Wide(0x6F626F4E, 0x69207964) == 0x692079646F626F4E
    ensures Round64(0x60EA27EEADC0B5D6, 0x692079646F626F4E) == 0x37245127A4067E4B
    ensures Wide(0x6570736E, 0x20737463) == 0x207374636570736E
    ensures Round64(0xC2B2AE3D27D4EB4F, 0x207374636570736E) == 0x1B302B0A818F92CF
    ensures Wide(0x20656874, 0x6D617073) == 0x6D61707320656874
    ensures Round64(0, 0x6D61707320656874) == 0xCD62D843D0580FCA
    ensures Wide(0x6873696D, 0x70657220) == 0x706572206873696D
    ensures Round64(0x61C8864E7A143579, 0x706572206873696D) == 0x1C16E43EF2142A4A
  {
  }

  /** The lanes of the 64-bit hash after the one stripe of the text. */
  const LANES: Lanes<bv64> :=
    Lanes(0x37245127A4067E4B, 0x1B302B0A818F92CF, 0xCD62D843D0580FCA, 0x1C16E43EF2142A4A)

  lemma Merges64()
    ensures Sum64(LANES) == 0xC4DE2CE639FB8154
    ensures Round64(0, 0x37245127A4067E4B) == 0x7790FF1F7A9A2803
    ensures Joined64(0xC4DE2CE639FB8154, 0x7790FF1F7A9A2803) == 0x30D40DDD00AEA144
    ensures Round64(0, 0x1B302B0A818F92CF) == 0xDECED6C0BF716B27
    ensures Joined64(0x30D40DDD00AEA144, 0xDECED6C0BF716B27) == 0xE5A1F095BF498698
    ensures Round64(0, 0xCD62D843D0580FCA) == 0x70073EB805759BBE
    ensures Joined64(0xE5A1F095BF498698, 0x70073EB805759BBE) == 0xF9CEE721E748096D
    ensures Round64(0, 0x1C16E43EF2142A4A) == 0xC1CBBAE50E57E4F3
    ensures Joined64(0xF9CEE721E748096D, 0xC1CBBAE50E57E4F3) == 0x84F22C421A11A8B5
    ensures 0x84F22C421A11A8B5 + 39 == 0x84F22C421A11A8DC
  {
  }

  lemma Ends64()
    ensures Word64(0x84F22C421A11A8DC, 0x74697465) == 0x9FCA0F5D0AAA110F
    ensures Byte64(0x9FCA0F5D0AAA110F, 0x69) == 0x769671546F21BA14
    ensures Byte64(0x769671546F21BA14, 0x6F) == 0xEAE9B643C5F94E52
    ensures Byte64(0xEAE9B643C5F94E52, 0x6E) == 0x1D0A47483B37CC24
    ensures Avalanche64(0x1D0A47483B37CC24) == 0xFBCEA83C8A378BF1
  {
  }

  lemma StripeAt64(v: Lanes<bv64>, s: seq<byte>)
    requires |s| >= 32
    ensures Stripe64(v, s[..32]) ==
            Lanes(Round64(v.v1, Wide(Joined(s[0], s[1], s[2], s[3]), Joined(s[4], s[5], s[6], s[7]))),
                  Round64(v.v2, Wide(Joined(s[8], s[9], s[10], s[11]), Joined(s[12], s[13], s[14], s[15]))),
                  Round64(v.v3, Wide(Joined(s[16], s[17], s[18], s[19]), Joined(s[20], s[21], s[22], s[23]))),
                  Round64(v.v4, Wide(Joined(s[24], s[25], s[26], s[27]), Joined(s[28], s[29], s[30], s[31]))))
  {
    hide Joined, Wide, Round64, Read32le, Read64le;
    var t := s[..32];
    assert t[0..] == t;
    LongAt(t, 0);
    LongAt(t, 8);
    LongAt(t, 16);
    LongAt(t, 24);
  }

  lemma FirstStripe64()
    ensures Stripe64(START64, TEXT[..32]) == LANES
  {
    hide Joined, Wide, Round64, Stripe64;
    FirstWords();
    SecondWords();
    Rounds64();
    StripeAt64(START64, TEXT);
  }

  lemma Lanes64()
    ensures Folded(Stripe64, 32, START64, TEXT) == LANES && Remainder(32, TEXT) == TEXT[32..]
  {
    hide Stripe64;
    FirstStripe64();
    assert Folded(Stripe64, 32, LANES, TEXT[32..]) == LANES;
    assert Remainder(32, TEXT[32..]) == TEXT[32..];
  }

  lemma SevenLeft64(h: bv64, t: seq<byte>)
    requires |t| == 7
    ensures Tail64(h, t) == Byte64(Byte64(Byte64(Word64(h, Read32le(t)), t[4]), t[5]), t[6])
  {
    hide Word64, Byte64, Read32le;
    var h1 := Word64(h, Read32le(t));
    var h2 := Byte64(h1, t[4]);
    assert Tail64(h1, t[4..]) == Tail64(h2, t[4..][1..]);
    var h3, last := Byte64(h2, t[5]), t[4..][1..][1..];
    assert Tail64(h2, t[4..][1..]) == Tail64(h3, last);
    assert Tail64(h3, last) == Tail64(Byte64(h3, t[6]), last[1..]) && last[1..] == [];
  }

  lemma TextTail64()
    ensures Tail64(0x84F22C421A11A8DC, TEXT[32..]) == 0x1D0A47483B37CC24
  {
    hide Word64, Byte64, Joined, Tail64, Read32le;
    TextWords();
    Ends64();
    WordAt(TEXT, 32);
    SevenLeft64(0x84F22C421A11A8DC, TEXT[32..]);
  }

  lemma Merged()
    ensures Merged64(LANES, 39) == 0x84F22C421A11A8DC
  {
    hide Round64, Joined64, Sum64, Low64;
    TextWords();
    Merges64();
  }

  lemma LongText64()
    ensures Hash64(TEXT) == 0xFBCEA83C8A378BF1
  {
    hide Tail64, Avalanche64, Stripe64, Merged64, Folded, Remainder;
    Merged();
    Lanes64();
    TextTail64();
    Ends64();
  }
}
