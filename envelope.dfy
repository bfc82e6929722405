// The "CW" envelope that `arcane_symmetric` wraps around its ciphertexts,
// before Base64: magic "CW", algorithm byte, 16-byte salt, IV length, IV, then
// either a one-byte tag length and the GCM ciphertext-and-tag, or a
// little-endian 32-bit MAC length, the MAC and the ciphertext. Only the
// framing is modelled: salt, IV, MAC and ciphertext are opaque bytes.
module Envelope {
  import opened Wrappers

  type Byte = b: int | 0 <= b < 256

  /** The two magic bytes, ASCII 'C' and 'W'. */
  const Magic: seq<Byte> := [0x43, 0x57]

  /** `ALG_AES_GCM`, `ALG_AES_CBC`, `ALG_AES_CTR`, `ALG_TWOFISH_CTR`. */
  const AlgGcm: Byte := 1
  const AlgCbc: Byte := 2
  const AlgCtr: Byte := 3
  const AlgTwofish: Byte := 4

  const SaltLen: nat := 16
  /** The IV lengths and the GCM tag length the encrypting side writes. */
  const GcmIvLen: nat := 12
  const MacIvLen: nat := 16
  const GcmTagLen: Byte := 16

  /** `2 + 1 + 16 + 1 + 12 + 1 + 16` and `2 + 1 + 16 + 1 + 16 + 4`. */
  const GcmMinimum: nat := 49
  const MacMinimum: nat := 40

  function Pow256(k: nat): (p: nat)
    ensures p >= 1
  {
    if k == 0 then 1 else 256 * Pow256(k - 1)
  }

  /** The number the bytes spell, least significant first (a `memcpy` into a uint32 on a little-endian host). */
  function Word(b: seq<Byte>): (n: nat)
    ensures n < Pow256(|b|)
  {
    if b == [] then 0 else b[0] + 256 * Word(b[1..])
  }

  /** The k bytes of n, least significant first: what `append((const char *)&n, k)` writes. */
  function LittleEndian(n: nat, k: nat): (b: seq<Byte>)
    ensures |b| == k
  {
    if k == 0 then [] else [n % 256] + LittleEndian(n / 256, k - 1)
  }

  lemma {:induction false} WordOfLittleEndian(n: nat, k: nat)
    requires n < Pow256(k)
    ensures Word(LittleEndian(n, k)) == n
  {
    if k > 0 {
      WordOfLittleEndian(n / 256, k - 1);
    }
  }

  lemma {:induction false} LittleEndianOfWord(b: seq<Byte>)
    ensures LittleEndian(Word(b), |b|) == b
  {
    if b != [] {
      LittleEndianOfWord(b[1..]);
      assert (b[0] + 256 * Word(b[1..])) / 256 == Word(b[1..]);
    }
  }

  /** Reading `bin[i]`: inside the string the byte, at or past its end the terminator 0. */
  function At(bin: seq<Byte>, i: nat): (b: Byte)
    ensures i < |bin| ==> b == bin[i]
  {
    if i < |bin| then bin[i] else 0
  }

  // ---------------------------------------------------------------- AES-GCM

  /** The fields of a GCM envelope. */
  datatype GcmFrame = GcmFrame(salt: seq<Byte>, iv: seq<Byte>, tagLen: Byte, payload: seq<Byte>)

  /** A frame that fits the layout: a 16-byte salt and an IV whose length fits a byte. */
  predicate GcmShaped(f: GcmFrame)
  {
    |f.salt| == SaltLen && |f.iv| < 256
  }

  /** `"CW" + alg + salt + ivLen + iv + tagLen + cipherAndTag`. */
  function GcmLayout(f: GcmFrame): (bin: seq<Byte>)
    requires GcmShaped(f)
    ensures |bin| == 21 + |f.iv| + |f.payload|
  {
    Magic + [AlgGcm] + f.salt + [|f.iv|] + f.iv + [f.tagLen] + f.payload
  }

  /**
   * What `AESGCM_Decrypt` takes out of the decoded bytes before any crypto
   * runs. The tag length is read at 20 + ivLen and the payload starts one
   * past it; when that is past the end, `substr` throws.
   */
  function ParseGcm(bin: seq<Byte>): (r: Result<GcmFrame>)
  {
    if |bin| < GcmMinimum then Fail("Invalid ciphertext (too short)")
    else if bin[0] != Magic[0] || bin[1] != Magic[1] then Fail("Invalid format")
    else if bin[2] != AlgGcm then Fail("Algorithm mismatch (expect AES-GCM)")
    else
      var ivLen: nat := bin[19];
      if |bin| < 21 + ivLen then Fail("basic_string::substr")
      else Ok(GcmFrame(bin[3..19], bin[20..20 + ivLen], bin[20 + ivLen], bin[21 + ivLen..]))
  }

  /** Every envelope the parser accepts is the layout of what it returns. */
  lemma GcmParsedIsLayout(bin: seq<Byte>)
    requires ParseGcm(bin).Ok?
    ensures GcmShaped(ParseGcm(bin).value) && GcmLayout(ParseGcm(bin).value) == bin
  {
    var f := ParseGcm(bin).value;
    assert bin == bin[..2] + [bin[2]] + bin[3..19] + [bin[19]] + bin[20..20 + bin[19]]
      + [bin[20 + bin[19]]] + bin[21 + bin[19]..];
  }

  /** The layout of every frame long enough to pass the length check parses back to that frame. */
  lemma GcmRoundTrip(f: GcmFrame)
    requires GcmShaped(f) && |f.iv| + |f.payload| >= GcmMinimum - 21
    ensures ParseGcm(GcmLayout(f)) == Ok(f)
  {
    var bin := GcmLayout(f);
    var n := |f.iv|;
    assert bin[3..19] == f.salt;
    assert bin[19] == n;
    assert bin[20..20 + n] == f.iv;
    assert bin[20 + n] == f.tagLen;
    assert bin[21 + n..] == f.payload;
  }

  /** The envelope `AESGCM_Encrypt` builds around freshly drawn salt and IV and the cipher's output. */
  method SealGcm(salt: seq<Byte>, iv: seq<Byte>, cipherAndTag: seq<Byte>) returns (bin: seq<Byte>)
    requires |salt| == SaltLen && |iv| == GcmIvLen
    ensures bin == GcmLayout(GcmFrame(salt, iv, GcmTagLen, cipherAndTag))
    ensures |cipherAndTag| >= GcmTagLen ==> ParseGcm(bin) == Ok(GcmFrame(salt, iv, GcmTagLen, cipherAndTag))
  {
    bin := [];
    bin := bin + Magic;
    bin := bin + [AlgGcm];
    bin := bin + salt;
    bin := bin + [GcmIvLen];
    bin := bin + iv;
    bin := bin + [GcmTagLen];
    bin := bin + cipherAndTag;
    if |cipherAndTag| >= GcmTagLen {
      GcmRoundTrip(GcmFrame(salt, iv, GcmTagLen, cipherAndTag));
    }
  }

  /** The framing half of `AESGCM_Decrypt`, reading with a cursor. */
  method OpenGcm(bin: seq<Byte>) returns (r: Result<GcmFrame>)
    ensures r == ParseGcm(bin)
  {
    if |bin| < GcmMinimum {
      return Fail("Invalid ciphertext (too short)");
    }
    var pos := 0;
    if bin[0] != Magic[0] || bin[1] != Magic[1] {
      return Fail("Invalid format");
    }
    pos := 2;
    var alg := bin[pos];
    pos := pos + 1;
    if alg != AlgGcm {
      return Fail("Algorithm mismatch (expect AES-GCM)");
    }
    var saltPos := pos;
    pos := pos + SaltLen;
    var ivLen := bin[pos];
    pos := pos + 1;
    var ivPos := pos;
    pos := pos + ivLen;
    if |bin| < pos + 1 {
      return Fail("basic_string::substr");
    }
    var tagLen := bin[pos];
    pos := pos + 1;
    r := Ok(GcmFrame(bin[saltPos..saltPos + SaltLen], bin[ivPos..ivPos + ivLen], tagLen, bin[pos..]));
  }

  // ---------------------------------------------------- AES-CBC, AES-CTR, Twofish-CTR

  /** The three envelopes that carry an HMAC instead of a GCM tag. */
  datatype MacMode = Cbc | Ctr | Twofish
  {
    function Alg(): (a: Byte)
      ensures a in {AlgCbc, AlgCtr, AlgTwofish}
    {
      match this
      case Cbc => AlgCbc
      case Ctr => AlgCtr
      case Twofish => AlgTwofish
    }
  }

  /** The fields of a MAC envelope. */
  datatype MacFrame = MacFrame(salt: seq<Byte>, iv: seq<Byte>, mac: seq<Byte>, ciphertext: seq<Byte>)

  predicate MacShaped(f: MacFrame)
  {
    |f.salt| == SaltLen && |f.iv| < 256
  }

  /** `"CW" + alg + salt + ivLen + iv + macLen (4 bytes) + mac + ciphertext`; the length is cast to uint32. */
  function MacLayout(alg: Byte, f: MacFrame): (bin: seq<Byte>)
    requires MacShaped(f)
    ensures |bin| == 24 + |f.iv| + |f.mac| + |f.ciphertext|
  {
    Magic + [alg] + f.salt + [|f.iv|] + f.iv + LittleEndian(|f.mac| % Pow256(4), 4) + f.mac + f.ciphertext
  }

  /**
   * What the CBC, CTR and Twofish decrypts take out of the decoded bytes.
   * CBC and Twofish check the length (at least 40) but not the magic; CTR
   * checks the magic but not the length. All three then read the MAC length
   * at 20 + ivLen and reject an envelope too short for it, for the MAC or
   * for the ciphertext's start (`mac missing` in CBC, a throwing `substr`
   * in the others). A read past the end finds the terminator 0 or ends in
   * that same rejection.
   */
  function ParseMac(mode: MacMode, bin: seq<Byte>): (r: Result<MacFrame>)
  {
    if mode != Ctr && |bin| < MacMinimum then Fail("Invalid ciphertext")
    else if mode == Ctr && (At(bin, 0) != Magic[0] || At(bin, 1) != Magic[1]) then Fail("Invalid format")
    else if At(bin, 2) != mode.Alg() then Fail("Algorithm mismatch")
    else
      var ivLen: nat := At(bin, 19);
      if |bin| < 24 + ivLen then Fail("Invalid ciphertext (mac missing)")
      else
        var macLen := Word(bin[20 + ivLen..24 + ivLen]);
        if |bin| < 24 + ivLen + macLen then Fail("Invalid ciphertext (mac missing)")
        else Ok(MacFrame(bin[3..19], bin[20..20 + ivLen], bin[24 + ivLen..24 + ivLen + macLen],
                         bin[24 + ivLen + macLen..]))
  }

  /**
   * An accepted envelope is the layout of what the parser returns, except
   * for the first two bytes, which only the CTR parser compares with the magic.
   */
  lemma MacParsedIsLayout(mode: MacMode, bin: seq<Byte>)
    requires ParseMac(mode, bin).Ok?
    ensures MacShaped(ParseMac(mode, bin).value)
    ensures MacLayout(mode.Alg(), ParseMac(mode, bin).value)[2..] == bin[2..]
    ensures mode == Ctr ==> MacLayout(mode.Alg(), ParseMac(mode, bin).value) == bin
  {
    var f := ParseMac(mode, bin).value;
    var n: nat := bin[19];
    var lengthBytes := bin[20 + n..24 + n];
    var m := Word(lengthBytes);
    LittleEndianOfWord(lengthBytes);
    assert m < Pow256(4);
    assert f == MacFrame(bin[3..19], bin[20..20 + n], bin[24 + n..24 + n + m], bin[24 + n + m..]);
    MacPieces(mode.Alg(), f, bin, n, m);
  }

  /** Cutting an envelope at the offsets of its fields and gluing the pieces back. */
  lemma MacPieces(alg: Byte, f: MacFrame, bin: seq<Byte>, n: nat, m: nat)
    requires 24 + n + m <= |bin| && bin[19] == n && bin[2] == alg && m < Pow256(4)
    requires LittleEndian(m, 4) == bin[20 + n..24 + n]
    requires f == MacFrame(bin[3..19], bin[20..20 + n], bin[24 + n..24 + n + m], bin[24 + n + m..])
    ensures MacShaped(f)
    ensures MacLayout(alg, f)[2..] == bin[2..]
    ensures bin[..2] == Magic ==> MacLayout(alg, f) == bin
  {
    ModOfSmall(m, Pow256(4));
    var lengthBytes := bin[20 + n..24 + n];
    Glue(bin, n, m, alg, f.salt, f.iv, lengthBytes, f.mac, f.ciphertext);
    assert |f.mac| % Pow256(4) == m;
    LayoutOfFields(alg, f, lengthBytes);
    DropPrefix(Magic, [alg] + f.salt + [|f.iv|] + f.iv + lengthBytes + f.mac + f.ciphertext);
  }

  lemma LayoutOfFields(alg: Byte, f: MacFrame, lengthBytes: seq<Byte>)
    requires MacShaped(f) && lengthBytes == LittleEndian(|f.mac| % Pow256(4), 4)
    ensures MacLayout(alg, f) == Magic + ([alg] + f.salt + [|f.iv|] + f.iv + lengthBytes + f.mac + f.ciphertext)
  {
  }

  lemma ModOfSmall(m: nat, p: nat)
    requires m < p
    ensures m % p == m
  {
  }

  /** An envelope is the concatenation of its fields, cut at their offsets. */
  lemma Glue(bin: seq<Byte>, n: nat, m: nat, alg: Byte, salt: seq<Byte>, iv: seq<Byte>,
             lengthBytes: seq<Byte>, mac: seq<Byte>, ciphertext: seq<Byte>)
    requires 24 + n + m <= |bin| && bin[19] == n && bin[2] == alg
    requires salt == bin[3..19] && iv == bin[20..20 + n] && lengthBytes == bin[20 + n..24 + n]
    requires mac == bin[24 + n..24 + n + m] && ciphertext == bin[24 + n + m..]
    ensures bin[2..] == [alg] + salt + [|iv|] + iv + lengthBytes + mac + ciphertext
    ensures bin == bin[..2] + bin[2..]
  {
    assert bin[2..3] == [alg] && bin[19..20] == [|iv|];
    SliceSeven(bin, 2, 3, 19, 20, 20 + n, 24 + n, 24 + n + m);
  }

  /** A suffix of a sequence is the concatenation of the slices between consecutive cut points. */
  lemma SliceSeven(s: seq<Byte>, a: nat, b: nat, c: nat, d: nat, e: nat, f: nat, g: nat)
    requires a <= b <= c <= d <= e <= f <= g <= |s|
    ensures s[a..] == s[a..b] + s[b..c] + s[c..d] + s[d..e] + s[e..f] + s[f..g] + s[g..]
    ensures s == s[..a] + s[a..]
  {
  }

  lemma DropPrefix(p: seq<Byte>, s: seq<Byte>)
    ensures (p + s)[|p|..] == s
  {
  }

  /**
   * The layout of a frame whose MAC length fits 32 bits parses back to that
   * frame, provided CBC and Twofish see at least 40 bytes.
   */
  lemma MacRoundTrip(mode: MacMode, f: MacFrame)
    requires MacShaped(f) && |f.mac| < Pow256(4)
    requires mode != Ctr ==> |f.iv| + |f.mac| + |f.ciphertext| >= MacMinimum - 24
    ensures ParseMac(mode, MacLayout(mode.Alg(), f)) == Ok(f)
  {
    MacLayoutFields(mode.Alg(), f);
    WordOfLittleEndian(|f.mac|, 4);
  }

  /** Each field of a laid-out frame sits at the offset the parser reads it from. */
  lemma MacLayoutFields(alg: Byte, f: MacFrame)
    requires MacShaped(f) && |f.mac| < Pow256(4)
    ensures var bin, n, m := MacLayout(alg, f), |f.iv|, |f.mac|;
      bin[..2] == Magic && bin[2] == alg && bin[3..19] == f.salt && bin[19] == n &&
      bin[20..20 + n] == f.iv && bin[20 + n..24 + n] == LittleEndian(m, 4) &&
      bin[24 + n..24 + n + m] == f.mac && bin[24 + n + m..] == f.ciphertext
  {
    var bin := MacLayout(alg, f);
    var n := |f.iv|;
    var m := |f.mac|;
    ModOfSmall(m, Pow256(4));
    assert bin[..2] == Magic;
    assert bin[3..19] == f.salt;
    assert bin[20..20 + n] == f.iv;
    assert bin[20 + n..24 + n] == LittleEndian(m, 4);
    assert bin[24 + n..24 + n + m] == f.mac;
  }

  /** The CBC and Twofish parsers accept an envelope whose first two bytes are not "CW"; CTR and GCM do not. */
  lemma MagicUncheckedByCbcAndTwofish(f: MacFrame, mode: MacMode)
    requires MacShaped(f) && |f.mac| < Pow256(4) && |f.iv| + |f.mac| + |f.ciphertext| >= MacMinimum - 24
    ensures var forged := [0, 0] + MacLayout(mode.Alg(), f)[2..];
      ParseMac(mode, forged).Ok? <==> mode != Ctr
  {
    var bin := MacLayout(mode.Alg(), f);
    var forged := [0, 0] + bin[2..];
    MacRoundTrip(mode, f);
    assert forged[0] == 0;
    assert |forged| == |bin| && forall i :: 2 <= i < |bin| ==> forged[i] == bin[i];
    assert forged[2..] == bin[2..];
    assert forged[20 + |f.iv|..24 + |f.iv|] == bin[20 + |f.iv|..24 + |f.iv|];
  }

  /** CTR needs no more than the 24 framing bytes, where CBC and Twofish insist on 40. */
  lemma CtrAcceptsShortEnvelope(salt: seq<Byte>)
    requires |salt| == SaltLen
    ensures ParseMac(Ctr, MacLayout(AlgCtr, MacFrame(salt, [], [], []))) == Ok(MacFrame(salt, [], [], []))
    ensures ParseMac(Cbc, MacLayout(AlgCbc, MacFrame(salt, [], [], []))).Fail?
    ensures ParseMac(Twofish, MacLayout(AlgTwofish, MacFrame(salt, [], [], []))).Fail?
  {
    MacRoundTrip(Ctr, MacFrame(salt, [], [], []));
  }

  /** The envelope the CBC, CTR and Twofish encrypts build around their salt, IV, HMAC and ciphertext. */
  method SealMac(mode: MacMode, salt: seq<Byte>, iv: seq<Byte>, mac: seq<Byte>, ciphertext: seq<Byte>)
    returns (bin: seq<Byte>)
    requires |salt| == SaltLen && |iv| == MacIvLen
    ensures bin == MacLayout(mode.Alg(), MacFrame(salt, iv, mac, ciphertext))
    ensures |mac| < Pow256(4) ==> ParseMac(mode, bin) == Ok(MacFrame(salt, iv, mac, ciphertext))
  {
    bin := [];
    bin := bin + Magic;
    bin := bin + [mode.Alg()];
    bin := bin + salt;
    bin := bin + [MacIvLen];
    bin := bin + iv;
    var macLen := |mac| % Pow256(4);
    bin := bin + LittleEndian(macLen, 4);
    bin := bin + mac;
    bin := bin + ciphertext;
    assert bin == MacLayout(mode.Alg(), MacFrame(salt, iv, mac, ciphertext));
    if |mac| < Pow256(4) {
      MacRoundTrip(mode, MacFrame(salt, iv, mac, ciphertext));
    }
  }

  /** The framing half of the CBC, CTR and Twofish decrypts, reading with a cursor. */
  method OpenMac(mode: MacMode, bin: seq<Byte>) returns (r: Result<MacFrame>)
    ensures r == ParseMac(mode, bin)
  {
    if mode != Ctr && |bin| < MacMinimum {
      return Fail("Invalid ciphertext");
    }
    if mode == Ctr && (At(bin, 0) != Magic[0] || At(bin, 1) != Magic[1]) {
      return Fail("Invalid format");
    }
    var pos := 2;
    var alg := At(bin, pos);
    pos := pos + 1;
    if alg != mode.Alg() {
      return Fail("Algorithm mismatch");
    }
    var saltPos := pos;
    pos := pos + SaltLen;
    var ivLen := At(bin, pos);
    pos := pos + 1;
    var ivPos := pos;
    pos := pos + ivLen;
    if |bin| < pos + 4 {
      return Fail("Invalid ciphertext (mac missing)");
    }
    var macLen := Word(bin[pos..pos + 4]);
    pos := pos + 4;
    if |bin| < pos + macLen {
      return Fail("Invalid ciphertext (mac missing)");
    }
    var mac := bin[pos..pos + macLen];
    pos := pos + macLen;
    r := Ok(MacFrame(bin[saltPos..saltPos + SaltLen], bin[ivPos..ivPos + ivLen], mac, bin[pos..]));
  }
}
