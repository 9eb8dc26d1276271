/** A published test vector of XTEA, through all 32 rounds of the lock-owner scrambling. */
module LockOwnerVector {
  import opened Constants
  import opened LockOwner

  const KEY := Key(0x00010203, 0x04050607, 0x08090A0B, 0x0C0D0E0F)
  const START := Block(0x41424344, 0x45464748, 0x00000000)

  /** The block 41424344 45464748 becomes 497DF3D0 72612CB5. */
  lemma KnownAnswer()
    ensures OwnerId(KEY, 0x45464748_41424344) == 0x72612CB5_497DF3D0
  {
    hide Rounds;
    Rounds25To32();
  }

  /** With the words that enter the two mixings, and what these give, the block after round `n`. */
  lemma Next(n: nat, v0: U32, v1: U32, sum: U32, w0: U32, m0: U32, w1: U32, m1: U32)
    requires Rounds(START, KEY, n) == Block(v0, v1, sum)
    requires w0 == Plus(sum, KEY.Word(sum)) && m0 == Mix(v1, w0)
    requires w1 == Plus(Plus(sum, DELTA), KEY.Word(Plus(sum, DELTA) / 2048)) && m1 == Mix(Plus(v0, m0), w1)
    ensures Rounds(START, KEY, n + 1) == Block(Plus(v0, m0), Plus(v1, m1), Plus(sum, DELTA))
  {
    hide Mix, Plus, Key.Word;
  }

  lemma NoRounds()
    ensures Rounds(START, KEY, 0) == START
  {
  }

  lemma Mixed1To8()
    ensures Mix(0x45464748, 0x00010203) == 0x9B958C01 && Mix(0xDCD7CF45, 0xAA4487C8) == 0x02369EA7
    ensures Mix(0x477CE5EF, 0xA23C7FC0) == 0x1F4EE00E && Mix(0xFC26AF53, 0x4477FD7D) == 0x85C592E0
    ensures Mix(0xCD4278CF, 0x4477FD7D) == 0xDBE7E578 && Mix(0xD80E94CB, 0xDEAB7332) == 0x809CBFD3
    ensures Mix(0x4DDF38A2, 0xE6B37B3A) == 0xCBCFD7BD && Mix(0xA3DE6C88, 0x78DEE8E7) == 0xA408408B
    ensures Mix(0xF1E7792D, 0x78DEE8E7) == 0x733ECAA1 && Mix(0x171D3729, 0x171662A0) == 0x9F9EB0F2
    ensures Mix(0x91862A1F, 0x1B1A66A4) == 0xB56EDC1B && Mix(0xCC8C1344, 0xC159E865) == 0x5A68807B
    ensures Mix(0xEBEEAA9A, 0xBD55E461) == 0x18F163EF && Mix(0xE57D7733, 0x5B8D5E1A) == 0x6DF751A6
    ensures Mix(0x59E5FC40, 0x5F91621E) == 0xA9E78A3C && Mix(0x8F65016F, 0xF5C0D3CF) == 0x745093A5
  {
  }

  lemma Rounds1To8()
    ensures Rounds(START, KEY, 8) == Block(0x8F65016F, 0xCE368FE5, 0xF1BBCDC8)
  {
    hide Mix, Rounds;
    NoRounds();
    Mixed1To8();
    Next(0, 0x41424344, 0x45464748, 0x00000000, 0x00010203, 0x9B958C01, 0xAA4487C8, 0x02369EA7);
    Next(1, 0xDCD7CF45, 0x477CE5EF, 0x9E3779B9, 0xA23C7FC0, 0x1F4EE00E, 0x4477FD7D, 0x85C592E0);
    Next(2, 0xFC26AF53, 0xCD4278CF, 0x3C6EF372, 0x4477FD7D, 0xDBE7E578, 0xDEAB7332, 0x809CBFD3);
    Next(3, 0xD80E94CB, 0x4DDF38A2, 0xDAA66D2B, 0xE6B37B3A, 0xCBCFD7BD, 0x78DEE8E7, 0xA408408B);
    Next(4, 0xA3DE6C88, 0xF1E7792D, 0x78DDE6E4, 0x78DEE8E7, 0x733ECAA1, 0x171662A0, 0x9F9EB0F2);
    Next(5, 0x171D3729, 0x91862A1F, 0x1715609D, 0x1B1A66A4, 0xB56EDC1B, 0xC159E865, 0x5A68807B);
    Next(6, 0xCC8C1344, 0xEBEEAA9A, 0xB54CDA56, 0xBD55E461, 0x18F163EF, 0x5B8D5E1A, 0x6DF751A6);
    Next(7, 0xE57D7733, 0x59E5FC40, 0x5384540F, 0x5F91621E, 0xA9E78A3C, 0xF5C0D3CF, 0x745093A5);
  }

  lemma Mixed9To16()
    ensures Mix(0xCE368FE5, 0xF1BCCFCB) == 0x42F315DF && Mix(0xD258174E, 0x8FF44984) == 0x7A9F822C
    ensures Mix(0x48D61211, 0x93F84D88) == 0x4405EE19 && Mix(0x165E0567, 0x2E2BC33D) == 0x559B68FF
    ensures Mix(0x9E717B10, 0x3633CB45) == 0xB4667EAD && Mix(0xCAC48414, 0xD86F4902) == 0xAC8DA076
    ensures Mix(0x4AFF1B86, 0xD86F4902) == 0x20CA1540 && Mix(0xEB8E9954, 0x72A2BEB7) == 0xD9E6C469
    ensures Mix(0x24E5DFEF, 0x6A9AB6AF) == 0x1EFA1951 && Mix(0x0A88B2A5, 0x0CD6346C) == 0xBFBE1606
    ensures Mix(0xE4A3F5F5, 0x0CD6346C) == 0x3D680298 && Mix(0x47F0B53D, 0xAB0DAE25) == 0x6E282593
    ensures Mix(0x52CC1B88, 0xAF11B229) == 0x2E3241CD && Mix(0x7622F70A, 0x454123DA) == 0x92807DF8
    ensures Mix(0xE54C9980, 0x514D2FE6) == 0x687DB9AA && Mix(0xDEA0B0B4, 0xEF84A99F) == 0x241A16E6
  {
  }

  lemma Rounds9To16()
    ensures Rounds(START, KEY, 16) == Block(0xDEA0B0B4, 0x0966B066, 0xE3779B90)
  {
    hide Mix, Rounds;
    Rounds1To8();
    Mixed9To16();
    Next(8, 0x8F65016F, 0xCE368FE5, 0xF1BBCDC8, 0xF1BCCFCB, 0x42F315DF, 0x8FF44984, 0x7A9F822C);
    Next(9, 0xD258174E, 0x48D61211, 0x8FF34781, 0x93F84D88, 0x4405EE19, 0x2E2BC33D, 0x559B68FF);
    Next(10, 0x165E0567, 0x9E717B10, 0x2E2AC13A, 0x3633CB45, 0xB4667EAD, 0xD86F4902, 0xAC8DA076);
    Next(11, 0xCAC48414, 0x4AFF1B86, 0xCC623AF3, 0xD86F4902, 0x20CA1540, 0x72A2BEB7, 0xD9E6C469);
    Next(12, 0xEB8E9954, 0x24E5DFEF, 0x6A99B4AC, 0x6A9AB6AF, 0x1EFA1951, 0x0CD6346C, 0xBFBE1606);
    Next(13, 0x0A88B2A5, 0xE4A3F5F5, 0x08D12E65, 0x0CD6346C, 0x3D680298, 0xAB0DAE25, 0x6E282593);
    Next(14, 0x47F0B53D, 0x52CC1B88, 0xA708A81E, 0xAF11B229, 0x2E3241CD, 0x454123DA, 0x92807DF8);
    Next(15, 0x7622F70A, 0xE54C9980, 0x454021D7, 0x514D2FE6, 0x687DB9AA, 0xEF84A99F, 0x241A16E6);
  }

  lemma Mixed17To24()
    ensures Mix(0x0966B066, 0xE3789D93) == 0x7CFE79DA && Mix(0x5B9F2A8E, 0x89B81F54) == 0x9F756316
    ensures Mix(0xA8DC137C, 0x85B41B50) == 0xB4D7F187 && Mix(0x10771C15, 0x23EB9509) == 0x3B8200CC
    ensures Mix(0xE45E1448, 0x27EF990D) == 0x00CE5167 && Mix(0x11456D7C, 0xC2230EC2) == 0xE40164E5
    ensures Mix(0xC85F792D, 0xCA2B16CA) == 0x863FF48C && Mix(0x97856208, 0x5C568477) == 0x4839E9EF
    ensures Mix(0x1099631C, 0x5C568477) == 0x45FAD983 && Mix(0xDD803B8B, 0x069A0A3C) == 0xBAF5FECB
    ensures Mix(0xCB8F61E7, 0xFE920234) == 0x74ABC552 && Mix(0x522C00DD, 0xA0CD7FF1) == 0xD2B01142
    ensures Mix(0x9E3F7329, 0xA0CD7FF1) == 0x258B43C3 && Mix(0x77B744A0, 0x3B00F5A6) == 0xCB81C163
    ensures Mix(0x69C1348C, 0x4308FDAE) == 0x4A16885E && Mix(0xC1CDCCFE, 0xD9386F5F) == 0x059801DA
  {
  }

  lemma Rounds17To24()
    ensures Rounds(START, KEY, 24) == Block(0xC1CDCCFE, 0x6F593666, 0xD5336958)
  {
    hide Mix, Rounds;
    Rounds9To16();
    Mixed17To24();
    Next(16, 0xDEA0B0B4, 0x0966B066, 0xE3779B90, 0xE3789D93, 0x7CFE79DA, 0x89B81F54, 0x9F756316);
    Next(17, 0x5B9F2A8E, 0xA8DC137C, 0x81AF1549, 0x85B41B50, 0xB4D7F187, 0x23EB9509, 0x3B8200CC);
    Next(18, 0x10771C15, 0xE45E1448, 0x1FE68F02, 0x27EF990D, 0x00CE5167, 0xC2230EC2, 0xE40164E5);
    Next(19, 0x11456D7C, 0xC85F792D, 0xBE1E08BB, 0xCA2B16CA, 0x863FF48C, 0x5C568477, 0x4839E9EF);
    Next(20, 0x97856208, 0x1099631C, 0x5C558274, 0x5C568477, 0x45FAD983, 0x069A0A3C, 0xBAF5FECB);
    Next(21, 0xDD803B8B, 0xCB8F61E7, 0xFA8CFC2D, 0xFE920234, 0x74ABC552, 0xA0CD7FF1, 0xD2B01142);
    Next(22, 0x522C00DD, 0x9E3F7329, 0x98C475E6, 0xA0CD7FF1, 0x258B43C3, 0x3B00F5A6, 0xCB81C163);
    Next(23, 0x77B744A0, 0x69C1348C, 0x36FBEF9F, 0x4308FDAE, 0x4A16885E, 0xD9386F5F, 0x059801DA);
  }

  lemma Mixed25To32()
    ensures Mix(0x6F593666, 0xD5346B5B) == 0xB3768D62 && Mix(0x75445A60, 0x736BE514) == 0xBE583A27
    ensures Mix(0x2DB1708D, 0x776FE918) == 0x7F441AF9 && Mix(0xF4887559, 0x1DAF6AD9) == 0x5E04E14A
    ensures Mix(0x8BB651D7, 0x19AB66D5) == 0x53446700 && Mix(0x47CCDC59, 0xB7E2E08E) == 0x71229F45
    ensures Mix(0xFCD8F11C, 0xBBE6E492) == 0x7CA423F6 && Mix(0xC471004F, 0x561A5A47) == 0x53BED706
    ensures Mix(0x5097C822, 0x4E12523F) == 0x128256BC && Mix(0xD6F3570B, 0xF04DCFFC) == 0xB03B8EEF
    ensures Mix(0x00D35711, 0xF04DCFFC) == 0xFE4A8D45 && Mix(0xD53DE450, 0x8A8145B1) == 0xA034CBC3
    ensures Mix(0xA10822D4, 0x92894DB9) == 0x241BC293 && Mix(0xF959A6E3, 0x34C4CB76) == 0xBF6E829C
    ensures Mix(0x6076A570, 0x34C4CB76) == 0x50244CED && Mix(0x497DF3D0, 0xCEF8412B) == 0x11EA8745
  {
  }

  lemma Rounds25To32()
    ensures Rounds(START, KEY, 32) == Block(0x497DF3D0, 0x72612CB5, 0xC6EF3720)
  {
    hide Mix, Rounds;
    Rounds17To24();
    Mixed25To32();
    Next(24, 0xC1CDCCFE, 0x6F593666, 0xD5336958, 0xD5346B5B, 0xB3768D62, 0x736BE514, 0xBE583A27);
    Next(25, 0x75445A60, 0x2DB1708D, 0x736AE311, 0x776FE918, 0x7F441AF9, 0x1DAF6AD9, 0x5E04E14A);
    Next(26, 0xF4887559, 0x8BB651D7, 0x11A25CCA, 0x19AB66D5, 0x53446700, 0xB7E2E08E, 0x71229F45);
    Next(27, 0x47CCDC59, 0xFCD8F11C, 0xAFD9D683, 0xBBE6E492, 0x7CA423F6, 0x561A5A47, 0x53BED706);
    Next(28, 0xC471004F, 0x5097C822, 0x4E11503C, 0x4E12523F, 0x128256BC, 0xF04DCFFC, 0xB03B8EEF);
    Next(29, 0xD6F3570B, 0x00D35711, 0xEC48C9F5, 0xF04DCFFC, 0xFE4A8D45, 0x8A8145B1, 0xA034CBC3);
    Next(30, 0xD53DE450, 0xA10822D4, 0x8A8043AE, 0x92894DB9, 0x241BC293, 0x34C4CB76, 0xBF6E829C);
    Next(31, 0xF959A6E3, 0x6076A570, 0x28B7BD67, 0x34C4CB76, 0x50244CED, 0xCEF8412B, 0x11EA8745);
  }
}
