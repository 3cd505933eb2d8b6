# A verified model of Zenroom's self-contained algorithms

Zenroom's C code holds a number of algorithms that do not depend on its
libraries: the P-256 arithmetic and ECDSA, the text codecs, a modular square
root, a pool allocator, a JSON splitter and bit shifts on octets. This project
models them in Dafny, in the form the C code has (arrays updated in place,
loops, fields of a structure), and proves what they are for.

`dafny verify dfyconfig.toml` checks everything.

| files | what they hold |
|---|---|
| numbers, bits, radix, cstrings | powers, residues, primes and Fermat; bitwise operators; numbers written in a base; C strings |
| limbs, montgomery | 256-bit integers on eight 32-bit words; Montgomery arithmetic for an odd modulus |
| curve, jacobian, group, ladder, points | the affine group laws; the Jacobian field programs; multiples; the signed-binary ladder; all of it on limbs |
| ecdsa, signatures | signing, verifying, key exchange; which signatures exist and which are accepted |
| constants, compression, p256keys | the stored constants; compressed keys, and what they do on P-256 |
| base58 | both directions of the in-place base conversion |
| polymod, field1024, detection | the Bech32 checksum over GF(2); the field of 1024 elements; the errors the checksum finds |
| bech32, bech32laws | Bech32 strings; which are accepted, and what tells the encodings apart |
| regroup, address, addresslaws | regrouping of bits; segwit addresses |
| base32, bip39 | Base32, Crockford's Base32 and mnemonic phrases |
| quadratic, bigsqrt | Euler's criterion; Tonelli and Shanks |
| pool | the free list inside the pool's memory, beside the system allocator |
| json | the bracket scanner |
| octet | shifts and rotations |

## Main results

* **ECDSA.** Whatever `p256_ecdsa_sign` signs, `p256_ecdsa_verify` accepts under
  the matching key (`Ecdsa.SignedIsAccepted`), and nothing else is accepted: under
  any valid key exactly the pairs for which s R = e G + r Q has a solution R with
  abscissa r modulo n (`Signatures.OutcomeIff`), under the key of d exactly those signing produces
  (`Signatures.OutcomeIsSigned`). All this holds down to the limbs and bytes:
  every layer below is a method on arrays proved against a number or a point.
  The scalar ladder computes s P for every s in [1, n-1] and never hands an
  exceptional pair to the addition formula; that rests on n = 1 mod 4
  (`Ladder.IndexSafe`, `Ladder.IndexUnsafe`).
* **Codecs.** The two directions of Base58, Bech32, segwit addresses and BIP-39
  undo each other both ways; Base32 and Crockford decoding undo encoding. Where
  the code falls short of that, the exact condition is proved: see below.
* **Square roots.** Tonelli and Shanks terminates with a root for every odd
  prime and every square.
* **Bech32.** Up to three wrong symbols, wherever they are, and any burst of six
  are found (`Bech32.ThreeRejected`, `Bech32.BurstRejected`), by evaluating the
  shift register at three consecutive powers in the field of 1024 elements. The
  strings and addresses accepted are exactly the encodings, in one letter case
  (`Bech32Laws.AcceptedExactly`, `AddressLaws.AcceptsExactly`).
* **Pool.** Over every run of requests, with the holders of pointers writing into
  their blocks in between, the free list stays a duplicate-free list of whole,
  aligned blocks that nobody holds; what is behind the pointers held is what a
  plain list of byte strings would hold; and a pointer goes back to the
  allocator it came from (`Pool.Sfpool.Serve`).
* **Scanner and shifts.** The JSON splitter cuts after the shortest properly
  nested prefix; shifts and rotations act on the bits of the whole octet.

## Where the code and what is expected of it differ

* `p256_uncompress_publickey` compares the wanted parity with that of y in
  Montgomery form. A key survives compression and decompression exactly when
  the two parities agree (`Compression.RoundTripIff`); otherwise -y comes back,
  as it does for the generator of P-256 (`P256Keys.GeneratorComesBackNegated`).
  The function also succeeds for an x that is no abscissa of the curve
  (`Compression.UncompressOnCurve`), 1 being such a number
  (`P256Keys.NoKeyAtOne`).
* `bech32_encode` accepts an empty human-readable part, `bech32_decode` does not
  (`Bech32.EncodedVerdict`). `segwit_addr_encode` accepts some negative
  versions; the round trip holds exactly for non-negative ones
  (`Address.RoundTripIff`, `Address.NegativeVersionWraps`). The scripting
  interface (`src/zen_octet.c:882-902`) passes on versions 0 to 16 and the
  prefixes `bc` and `tb` only, so both concern direct callers of the C functions.
* `mnemonic_from_data` prints phrases of 15 and 21 words that
  `mnemonic_check_and_bits` does not take (`Bip39.CheckEncoded`).
* Beyond 128 levels the JSON scanner counts brackets without comparing them
  (`Json.CutIff`, `Json.TooDeepIsCut`); its branch for a negative level cannot
  be reached.
* The comment above the three-byte minimum in `to_base58` speaks of a wrapping
  counter; with the break at index 0 the loop is right for every length, and the
  buffer it is given suffices exactly from two bytes on or for a single byte
  below 58 (`Base58.TwiceIsEnoughIff`).
* `sfpool_init` takes pools of 2^32 bytes and more, but keeps their length in 32
  bits, so that the test for pool addresses misses some blocks
  (`Pool.RangeTestIff`, `Pool.TooLarge`).

## Model

| member | source | states |
|---|---|---|
| `Limbs.U256Set32` | src/p256-m.c:38-45 | the eight limbs stand for the given word |
| `Limbs.U256Add` | src/p256-m.c:57-70 | z + carry * 2^256 = x + y with a carry bit, z possibly being x or y |
| `Limbs.U256Sub` | src/p256-m.c:82-95 | z - borrow * 2^256 = x - y, so the borrow is exactly x < y |
| `Limbs.U256CMov` | src/p256-m.c:106-113 | the masked selection leaves z alone for c = 0 and copies x for c = 1 |
| `Limbs.U256Diff` | src/p256-m.c:122-130 | the or of the limb differences is 0 exactly for equal numbers |
| `Limbs.U256Diff0` | src/p256-m.c:138-146 | the or of the limbs is 0 exactly for the number 0 |
| `Limbs.U32MulAdd64` | src/p256-m.c:280-302 | the portable 16-bit-half program, wrapping additions included, computes x*y + z + t exactly |
| `Limbs.U288MulAdd` | src/p256-m.c:320-353 | nine limbs of z plus carry * 2^288 grow by exactly x * y |
| `Limbs.U288RShift32` | src/p256-m.c:365-372 | division of a number with zero low limb by 2^32, the carry entering on top |
| `Limbs.U256FromBytes` | src/p256-m.c:380-390 | limbs of the big-endian number the 32 bytes spell |
| `Limbs.U256ToBytes` | src/p256-m.c:399-409 | 32 bytes that spell the number of the limbs; bytes elsewhere untouched |
| `Limbs.U256RShift` | src/p256-m.c:411-442 | the word shift followed by the bit shift is division by 2^shift |
| `Montgomery.Modulus.Add` | src/p256-m.c:547-559 | sum of residues, reduced into [0, m), for the numbers held in Montgomery form |
| `Montgomery.Modulus.Sub` | src/p256-m.c:584-595 | difference of residues, reduced into [0, m) |
| `Montgomery.Modulus.MulStep` | src/p256-m.c:620-652 | one round: a stays below 2m (x of any size), the two carries together fit one bit, and 2^32 a' = a + x_i y + u m |
| `Montgomery.Modulus.Mul` | src/p256-m.c:620-652 | z in [0, m) with z * 2^256 = x * y mod m for any 256-bit x and any y < m; z may be x or y |
| `Montgomery.DecMul` | src/p256-m.c:620-652 | Montgomery products are products of the numbers held |
| `Montgomery.Modulus.PowM` | src/p256-m.c:678-703 | right-to-left exponentiation gives the Montgomery form of x^y for every 256-bit exponent |
| `Montgomery.Modulus.Prep` | src/p256-m.c:727-730 | conversion into Montgomery form |
| `Montgomery.Modulus.Done` | src/p256-m.c:740-745 | conversion out of it, with a reduced result |
| `Montgomery.Modulus.Set32` | src/p256-m.c:755-759 | the Montgomery form of a word below m |
| `Montgomery.Modulus.Inv` | src/p256-m.c:774-811 | the limb-by-limb scan of m - 2 (borrow between limbs included) computes x^(m-2) |
| `Curve.InvIsPower` | src/p256-m.c:774-811 | for a prime that power is the inverse, and 0 for 0 |
| `Montgomery.Modulus.FromBytes` | src/p256-m.c:822-834 | 0 exactly for bytes below m, and then their Montgomery form |
| `Montgomery.Modulus.ToBytes` | src/p256-m.c:844-852 | bytes of the number held |
| `Montgomery.DecOfEnc` | src/p256-m.c:727-745 | leaving Montgomery form undoes entering it |
| `Jacobian.OnJacobianIff` | src/p256-m.c:964-975 | a Jacobian triple satisfies y^2 = x^3 - 3xz^4 + bz^6 exactly when its affine point is on the curve |
| `Jacobian.DoubleMeaning` | src/p256-m.c:983-1022 | the doubling program is the tangent law, points of order two and z = 0 included, and stays on the curve |
| `Jacobian.AddMeaning` | src/p256-m.c:1031-1077 | the mixed addition program is the chord law for a finite point of different abscissa, and stays on the curve |
| `Curve.AddOnCurve` | src/p256-m.c:964-1077 | the affine tangent and chord laws stay on the curve |
| `Points.Domain.PointCheck` | src/p256-m.c:937-952 | 0 exactly for the coordinates of a point of the curve |
| `Points.Domain.PointToAffine` | src/p256-m.c:964-975 | the affine point of the triple; z = 0 becomes (0, 0) |
| `Points.Domain.PointDouble` | src/p256-m.c:983-1022 | twice the point, for every Jacobian triple |
| `Points.Domain.PointAdd` | src/p256-m.c:1031-1077 | the sum, whenever the first point is finite and the abscissas differ |
| `Points.Domain.PointAddOrDoubleLeaky` | src/p256-m.c:1090-1119 | the sum of any two finite points: chord, tangent, or infinity for opposite ones |
| `Ladder.IndexStep` | src/p256-m.c:1209-1222 | one ladder step takes the index of bit i+1 to that of bit i with coefficients 1 and -1 |
| `Ladder.IndexSafe` | src/p256-m.c:1217-1236 | at every iteration 1 < 2 s_i < n - 1 when n = 1 mod 4, so an exceptional addition never happens |
| `Ladder.IndexUnsafe` | src/p256-m.c:1217-1236 | for n = 3 mod 4 the scalar n - 2 would add -P' to (n-1) P': the bound uses n = 1 mod 4 |
| `Ladder.LadderStep` | src/p256-m.c:1219-1245 | doubling and adding +-P' turns s_{i+1} P' into s_i P', and the operands of the addition differ in abscissa |
| `Ladder.OddMultiple` | src/p256-m.c:1190-1204 | working with the odd one of s and n - s and the matching sign of P gives the same multiple |
| `Points.Domain.LadderLoop` | src/p256-m.c:1203-1245 | all 255 iterations at limb level: the triple ends as s_odd P' |
| `Points.Domain.ScalarMult` | src/p256-m.c:1175-1249 | exactly s P for every s in [1, n-1] and every finite P |
| `CurveGroup.MulMod` | src/p256-m.c:1175-1249 | multiples depend on the scalar modulo the group order only |
| `CurveGroup.SharedAbscissa` | src/p256-m.c:1217-1236 | two multiples with the same abscissa have scalars equal or opposite modulo n |
| `Ecdsa.ScalarFromBytes` | src/p256-m.c:1259-1273 | 0 exactly for 32 bytes in [1, n-1] |
| `Ecdsa.PointFromBytes` | src/p256-m.c:1131-1144 | 0 exactly for reduced coordinates of a point of the curve |
| `Ecdsa.PointToBytes` | src/p256-m.c:1153-1158 | the coordinates as 64 bytes |
| `Ecdsa.ScalarGenWithPub` | src/p256-m.c:1284-1316 | the first candidate in [1, n-1] (the given one, or at most four draws) and its multiple of the generator |
| `Ecdsa.PublicKey` | src/p256-m.c:1333-1349 | the generator's multiple for a key in [1, n-1], an error otherwise |
| `Ecdsa.SharedSecret` | src/p256-m.c:1360-1387 | the abscissa of the private multiple of a valid peer key; otherwise the code for the private key, or else the one for the peer key, and nothing written |
| `EcdsaSpec.Agreement` | src/p256-m.c:1360-1387 | a (b G) = b (a G) |
| `Ecdsa.SecretsAgree` | src/p256-m.c:1360-1387 | so both ends of a key exchange get the same secret |
| `Ecdsa.ModN` | src/p256-m.c:1404-1409 | one conditional subtraction reduces any 256-bit number modulo n |
| `Ecdsa.FromHash` | src/p256-m.c:1422-1446 | the leftmost 32 bytes of the hash, padded on the left when shorter, modulo n |
| `Ecdsa.EcdsaSign` | src/p256-m.c:1451-1517 | the outcome of SEC 1 section 4.1.3: signature bytes of (r, s), or the code of the failing check (r = 0 and s = 0 included); what a failure leaves in the buffer: nothing new without an r, zeros over the early r for s = 0, the early r for an invalid private key |
| `Ecdsa.EcdsaVerify` | src/p256-m.c:1522-1595 | accepts exactly by SEC 1 section 4.1.4: range checks, key validation, u1 = 0 and equal or opposite summands included |
| `EcdsaSpec.Completeness` | src/p256-m.c:1451-1595 | every produced (r, s) is in range and passes the verification equation under the matching key |
| `Ecdsa.SignedIsAccepted` | src/p256-m.c:1451-1595 | the byte-level outcomes: whatever signs, verifies |
| `Ecdsa.SignThenVerify` | src/p256-m.c:1451-1595 | key derivation, signing and verifying run in a row end in success whenever signing does |
| `Curve.AddCommutes` | src/p256-m.c:964-1077 | chord-and-tangent addition does not depend on the order of the points |
| `CurveGroup.MulSum` | src/p256-m.c:1175-1249 | multiples distribute over sums of points |
| `Signatures.HashIntReads` | src/p256-m.c:1422-1446 | the hash counts by its first 32 bytes, read most significant first, and leading zero bytes do not count |
| `Signatures.HashesDiffer` | src/p256-m.c:1422-1446 | two full-length hashes have the same number exactly when they have the same 32 bytes |
| `Signatures.SignSIff` | src/p256-m.c:1491-1512 | s is the one residue with k s = e + r d modulo n |
| `Signatures.HashIsSigned` | src/p256-m.c:1491-1512 | under one nonce and key, hashes that differ modulo n get different s |
| `Signatures.FixedNonce` | src/p256-m.c:1284-1316 | a fixed nonce is its first 32 bytes when they are in [1, n-1], and none otherwise |
| `Signatures.DrawnNonce` | src/p256-m.c:1284-1316 | of four draws the first in [1, n-1] is the nonce, and there is none exactly when all four are outside |
| `Signatures.SignOutcomeIff` | src/p256-m.c:1451-1517 | signing yields (r, s) exactly when k, d, r, s are in [1, n-1], r is the abscissa of k G modulo n, and k s = e + r d |
| `Signatures.VerifyIff` | src/p256-m.c:1522-1595 | under any valid key (r, s) is accepted exactly when some finite R with abscissa r modulo n satisfies s R = e G + r Q; the other codes exactly for an invalid key and for the rest |
| `Signatures.OutcomeIff` | src/p256-m.c:1522-1595 | the same for the bytes that are verified |
| `Signatures.OutcomeIsSigned` | src/p256-m.c:1522-1595 | under the key of d exactly the signatures are accepted that signing this hash with d and some nonce produces |
| `Constants.P256IsUsable` | src/p256-m.c:483-536 | the stored limbs of p, n, 2^512 mod each, -1/m mod 2^32, b and the generator satisfy everything the code asks of them |
| `Compression.Compress` | src/p256-m.c:1643-1657 | prefix 2 or 3 by the parity of y, then x; an error for an invalid key |
| `Compression.Uncompress` | src/p256-m.c:1604-1641 | x and the candidate ordinate; success for every reduced x, whether or not it is an abscissa of the curve |
| `Compression.RootIff` | src/p256-m.c:1623-1630 | a^((p+1)/4) squares to a exactly when a is a square |
| `Compression.UncompressOnCurve` | src/p256-m.c:1604-1641 | the key returned is valid exactly when x^3 - 3x + b is a square |
| `Compression.OrdinateByParity` | src/p256-m.c:1631-1638 | the prefix counts by its last bit and picks one of two opposite roots |
| `Compression.RoundTripIff` | src/p256-m.c:1604-1657 | decompression gives back y exactly when the parity of its Montgomery form is its own parity, and -y otherwise |
| `P256Keys.GeneratorComesBackNegated` | src/p256-m.c:1604-1657 | on P-256 the standard generator is a valid key that comes back as its negative |
| `P256Keys.NoKeyAtOne` | src/p256-m.c:1604-1641 | on P-256 no point has abscissa 1, and decompression writes coordinates for it that are no key |
| `Quadratic.OppositeNonSquare` | src/p256-m.c:1623-1630 | for p = 3 mod 4 a square and its negative are never both squares |
| `Base58.SizeBound` | src/base58.c:125-125 | 58^(138k/100 + 1) >= 256^k, and one digit less holds k - 1 bytes: the buffer holds every value, and one digit less still holds it before the last byte |
| `Base58.PushByte` | src/base58.c:129-141 | one byte enters the digit buffer in place: value' = 256 value + byte, carry gone at the break, untouched digits zero |
| `Base58.BufferSuffices` | src/base58.c:125-141 | the first digit stays zero until the last byte has entered, so skipping index 0 drops nothing |
| `Base58.Convert` | src/base58.c:122-141 | the digit buffer has the value of the bytes |
| `Base58.Encode` | src/base58.c:115-159 | a '1' per leading zero byte and the minimal base-58 digits, or failure with the size needed and nothing written |
| `Base58.TwiceIsEnough` | src/zen_octet.c:1259-1263 | a buffer of twice the length suffices from two bytes on |
| `Base58.OneByteLength` | src/zen_octet.c:1255-1260 | a single byte gives one character below 58 and two from there on |
| `Base58.TwiceIsEnoughIff` | src/zen_octet.c:1255-1263 | for a non-empty octet it suffices exactly from two bytes on or for a byte below 58 |
| `Base58.AlphabetIs` | src/base58.c:15-26 | the alphabet is strictly increasing over digits and letters without 0, I, O and l |
| `Base58.KnownAnswer` | src/base58.c:115-159 | a zero byte and the letter a are written 12g |
| `Base58.MaskTest` | src/base58.c:49-50 | the mask on the first word tests for 256^bytesleft |
| `Base58.MulAdd58` | src/base58.c:72-78 | outi := 58 outi + digit in 32-bit words, the overflow being the carry |
| `Base58.Capacity` | src/base58.c:79-84 | the two overflow tests together say value < 256^binsz |
| `Base58.Decode` | src/base58.c:39-113 | 1 exactly when every character is in the alphabet and the value is below 256^binsz; then the bytes have that value and the size is the canonical one |
| `Base58.AcceptsIff` | src/base58.c:39-113 | accepted are exactly the texts over the alphabet, named by its characters, whose number so many bytes hold |
| `Base58.DecodeEncoded` | src/base58.c:39-159 | decoding an encoding gives back the bytes, leading zeros included, in any buffer at least as long |
| `Base58.EncodeDecoded` | src/base58.c:39-159 | encoding what was decoded gives back the text whenever the announced size fits the buffer |
| `Polymod.StepLinear` | src/segwit_addr.c:28-36 | a checksum step is linear over GF(2) |
| `Polymod.StepInjective` | src/segwit_addr.c:28-36 | and injective on 30-bit states |
| `Polymod.RunSix` | src/segwit_addr.c:82-88 | six symbols fed into an empty register are one 30-bit word, one to one |
| `Polymod.ChecksumIff` | src/segwit_addr.c:82-88 | six symbols lead to the final constant exactly when they are the checksum the encoder writes |
| `Polymod.BurstDetected` | src/segwit_addr.c:28-36 | symbol strings differing only within six consecutive places never reach the same state |
| `Field1024.ShortTurnsMove` | src/segwit_addr.c:28-36 | in the field of 1024 elements fewer than 1023 multiplications by z move everything but 0 |
| `Detection.StepAt` | src/segwit_addr.c:28-36 | read at three consecutive powers of z, a checksum step is a multiplication: the generator vanishes there |
| `Detection.NoCancellation` | src/segwit_addr.c:28-36 | three symbols fed at three of 1023 places never cancel |
| `Detection.ThreeDetected` | src/segwit_addr.c:28-36 | symbol strings differing in at most three places, fewer than 1023 apart, never reach the same state |
| `Bech32.Encode` | src/segwit_addr.c:57-91 | success exactly for printable lower-case prefixes, 5-bit data and at most 90 characters; then prefix, '1', data, checksum and NUL |
| `Bech32.Decode` | src/segwit_addr.c:93-154 | the verdict on any string, and for an accepted one the lower-case prefix and the data |
| `Bech32.EncodedParts` | src/segwit_addr.c:93-112 | the last '1' of an encoded string is its separator even when the prefix has others |
| `Bech32.EncodedVerdict` | src/segwit_addr.c:57-154 | an encoded string verifies under its own encoding and no other exactly when its prefix is not empty |
| `Bech32.AcceptedIff` | src/segwit_addr.c:57-154 | a well-formed string is accepted exactly when, up to letter case, it is the encoding of its own parts |
| `Bech32Laws.AcceptedExactly` | src/segwit_addr.c:57-154 | a string is accepted exactly when, in one letter case throughout, it is what some data encode to |
| `Bech32Laws.CanEncodeIs` | src/segwit_addr.c:57-91 | encodable are printable ASCII prefixes without capitals and 5-bit symbols, 90 characters in all |
| `Bech32Laws.InsertionKept` | src/segwit_addr.c:38-42 | under Bech32 any number of q may be inserted before a final p |
| `Bech32Laws.InsertionFound` | src/segwit_addr.c:38-42 | under Bech32m none may: this is what its constant is for |
| `Bech32Laws.KnownAnswers` | src/segwit_addr.c:57-91 | the prefix a without data is written a12uel5l and a1lqfn3a |
| `Bech32Laws.ExpansionIsWhole` | src/segwit_addr.c:63-76 | the two halves of a prefix character make it up |
| `Bech32Laws.CharacterSet` | src/segwit_addr.c:44-44 | the character set of BIP 173 |
| `Bech32.BurstRejected` | src/segwit_addr.c:93-154 | two strings with the same prefix whose symbols differ within a window of six, a single one in particular, are never both accepted under one encoding |
| `Bech32.ThreeRejected` | src/segwit_addr.c:93-154 | two strings with the same prefix that differ in at most three symbols, wherever they are, are never both accepted under one encoding |
| `BitGroups.ShiftIn` | src/segwit_addr.c:161-162 | the 32-bit accumulator wraps, yet the bits still pending are exact |
| `BitGroups.ConvertBits` | src/segwit_addr.c:156-176 | regrouped bits of the same number: zero-padded, or cut with success exactly when what is cut off is short and zero |
| `BitGroups.CutPadded` | src/segwit_addr.c:156-176 | cutting 5-bit groups undoes padding 8-bit ones |
| `BitGroups.PaddedCut` | src/segwit_addr.c:156-176 | and padding gives back whatever cutting accepts |
| `BitGroups.CutAcceptsPadded` | src/segwit_addr.c:156-176 | so cutting succeeds exactly on the outputs of padding |
| `Address.Encode` | src/segwit_addr.c:178-190 | success exactly for versions up to 16 whose low byte is a symbol and programs of the right size; then the address |
| `Address.Decode` | src/segwit_addr.c:192-209 | success exactly for addresses that fit prefix, version, encoding and program size; then version and program |
| `AddressLaws.EncodingByVersion` | src/segwit_addr.c:178-190 | version 0 is written in Bech32 and versions 1 to 16 in Bech32m, and no other way round |
| `AddressLaws.AcceptedByVersion` | src/segwit_addr.c:192-209 | an accepted address is in Bech32 exactly for version 0 |
| `AddressLaws.AcceptsExactly` | src/segwit_addr.c:192-209 | accepted are exactly the addresses of versions 0 to 16 and programs of 2 to 40 bytes, 20 or 32 for version 0, in one letter case |
| `AddressLaws.CanEncodeIs` | src/segwit_addr.c:178-190 | the versions and sizes the encoder takes |
| `AddressLaws.KnownAddress` | src/segwit_addr.c:178-190 | version 16 with the bytes 751e is bc1sw50qgdz25j |
| `Address.RoundTripIff` | src/segwit_addr.c:178-209 | decoding an accepted encoding gives back version and program exactly when the prefix is not empty and the version not negative |
| `Address.NegativeVersionWraps` | src/segwit_addr.c:180-187 | version -256 is accepted and reads back as version 0 |
| `Address.AcceptedReencodes` | src/segwit_addr.c:178-209 | an accepted address re-encodes to its lower-case form |
| `BigSqrt.SquareAndMultiply` | src/zen_big.c:212-228 | x^n mod m, and 1 for n = 0 |
| `BigSqrt.ModSqrt` | src/zen_big.c:470-533 | a root in [0, p) for every odd prime p and every square n, 0 included |
| `BigSqrt.RootByPower` | src/zen_big.c:478-484 | for p = 3 mod 4 one power is the root |
| `BigSqrt.TurnKeeps` | src/zen_big.c:514-529 | a turn of the loop keeps R^2 = t n, t^(2^(M-1)) = 1, c^(2^(M-1)) = -1, with a smaller M |
| `BigSqrt.CountSquarings` | src/zen_big.c:515-520 | the inner loop ends below M at the first power of two that takes t to 1 |
| `BigSqrt.SplitOrder` | src/zen_big.c:488-493 | p - 1 = Q 2^S with Q odd |
| `BigSqrt.FindNonSquare` | src/zen_big.c:494-499 | the search for a non-square ends below p |
| `Quadratic.EulerNonSquare` | src/zen_big.c:494-502 | z^((p-1)/2) = -1 for a non-square, by pairing x with z/x |
| `Quadratic.EulerSquare` | src/zen_big.c:503-511 | n^((p-1)/2) = 1 for a non-zero square |
| `Quadratic.NonSquareExists` | src/zen_big.c:494-499 | every odd prime has a non-square, by counting squares |
| `Pool.Sfpool.constructor` | src/sfpool.h:195-197 | an empty pool |
| `Pool.Sfpool.Init` | src/sfpool.h:195-230 | the sizes refused; below 2^32 bytes a free list of all blocks in order inside the aligned memory; the fields, truncated to 32 bits, for any size |
| `Pool.RangeTestIff` | src/sfpool.h:84-88 | with the truncated length the range test sees every block exactly when the pool has fewer than 2^32 bytes |
| `Pool.TooLarge` | src/sfpool.h:84-88 | 2^26 blocks of 64 bytes are such a pool: the range test sees none of them |
| `Pool.PowerOfTwoAligned` | src/sfpool.h:200-200 | the bit test for a power of two makes every block pointer-aligned |
| `Pool.Thread` | src/sfpool.h:213-223 | the link words of the initial list |
| `Pool.Sfpool.Malloc` | src/sfpool.h:268-295 | the first free block for a request that fits, a system block otherwise; new pointers are not live before, other pointers keep their bytes |
| `Pool.Sfpool.Free` | src/sfpool.h:307-325 | a pool block goes back to the head of the list, zero past its link word; any other pointer to the system |
| `Pool.Sfpool.Realloc` | src/sfpool.h:340-389 | a block that still fits stays; a growing one is copied whole, then scrubbed and given back; a failure changes nothing |
| `Pool.ChainPush` | src/sfpool.h:315-319 | writing the link into a block that is not on the list leaves every other link intact |
| `Pool.GoodSizeIff` | src/sfpool.h:199-200 | the bit test takes exactly the powers of two from 8 on |
| `Pool.Sfpool.HitIff` | src/sfpool.h:268-285 | the pool serves a request exactly when there is one, the size fits a block and a block is free |
| `Pool.CleanIs` | src/sfpool.h:307-319 | a clean block is zero past its link word |
| `Pool.PartitionPush` | src/sfpool.h:315-319 | free and live blocks stay a partition of all blocks when one comes back |
| `Pool.PartitionPop` | src/sfpool.h:281-285 | and when one is handed out |
| `Pool.CleanPush` | src/sfpool.h:311-319 | blocks given back are zero past their link word |
| `Pool.Sfpool.LiveInside` | src/sfpool.h:84-88 | live pool pointers are aligned, whole blocks inside the pool |
| `Pool.Sfpool.FreeIsNotLive` | src/sfpool.h:281-285 | no free block is anybody's pointer |
| `Pool.Sfpool.Manage` | src/zen_memory.c:43-79 | the lua_Alloc contract: pool blocks for userdata only, every pointer back to the allocator it came from, common bytes kept, a shrinking pool block never fails |
| `Pool.ChainKept` | src/sfpool.h:315-319 | a change inside a block that is not on the free list leaves every link intact |
| `Pool.Sfpool.Write` | src/zen_memory.c:43-79 | a store behind a held pointer changes that byte and nothing else anybody holds, and keeps the pool intact |
| `Pool.Sfpool.Serve` | src/zen_memory.c:43-79 | after any run of requests and stores the invariant holds, the pointers held are pairwise different and exactly the live ones, and what is behind them is what the run explains on plain byte strings |
| `Pool.TurnReads` | src/zen_memory.c:43-79 | what a request or a store may make of the byte strings held, byte by byte |
| `Json.BackwardsIsForwards` | src/zen_parse.c:181-190 | counting backslashes backwards from a quote agrees with a forward escape automaton |
| `Json.QuotesToggle` | src/zen_parse.c:174-190 | strings begin and end at quotes, except inside one after an odd number of backslashes |
| `Json.BracketsGain` | src/zen_parse.c:174-226 | the characters that count are the four brackets outside strings |
| `Json.NestedIff` | src/zen_parse.c:205-226 | the stack discipline accepts exactly the strings of the grammar with {N}N and [N]N |
| `Json.EachHasItsOpener` | src/zen_parse.c:200-226 | every bracket owed answers one opening bracket, curly for curly and square for square |
| `Json.MismatchIsReal` | src/zen_parse.c:215-221 | a mismatch is reported only for a bracket against the other kind |
| `Json.LastCheckedDepth` | src/zen_parse.c:205-226 | a wrong bracket at depth 128 is still reported |
| `Json.ObjectIsCut` | src/zen_parse.c:138-239 | an object with a bracket and an escaped quote inside a string is cut where it ends |
| `Json.StrictIff` | src/zen_parse.c:205-226 | without checks below depth 128 the stack still agrees with the strict one exactly when everything there matches |
| `Json.CutIsShortestNested` | src/zen_parse.c:138-239 | for texts matching below the limit (all texts up to depth 128) the cut is after the shortest properly nested prefix |
| `Json.ShallowMatches` | src/zen_parse.c:124-124 | texts nested up to the limit are such texts |
| `Json.CutIff` | src/zen_parse.c:138-250 | for any text, exactly then |
| `Json.TooDeepIsCut` | src/zen_parse.c:205-226 | a wrong bracket at depth 129 is cut as if it matched |
| `Json.BlankCharacters` | src/zen_parse.c:127-135 | the characters and escapes that count as blanks |
| `Json.StartIs` | src/zen_parse.c:152-162 | scanning starts after one byte order mark and the blanks |
| `Json.SkipBlanks` | src/zen_parse.c:127-135 | skips exactly the blanks and the two-character escapes for newline, return and tab |
| `Json.Scan` | src/zen_parse.c:167-239 | the end of the first complete value, or none exists; the level is never negative |
| `Json.ReportReads` | src/zen_parse.c:215-241 | what the two reports say: place and both brackets, or size and level |
| `Json.OneExplanation` | src/zen_parse.c:205-241 | the two errors exclude each other: a mismatch is reported exactly when the bracket automaton has failed for good |
| `Json.UnserializeJson` | src/zen_parse.c:138-250 | a silent nil exactly without an opening bracket; a value exactly when the first one can be completed, and then the first part reaches to its end and the rest begins after the blanks that follow; otherwise the first bracket that fails, with the one expected and its place, or the level left open at the end |
| `Octets.LeftStep` | src/zen_octet.c:2341-2346 | one byte of a left shift: 256 carry' + byte' = 2^b byte + carry |
| `Octets.RightStep` | src/zen_octet.c:2400-2406 | one byte of a right shift |
| `Octets.Octet.ShlBits` | src/zen_octet.c:2326-2348 | the bits moved left by n, zeros entering; an empty octet from 8 len on; unchanged for negative n |
| `Octets.Octet.ShrBits` | src/zen_octet.c:2387-2408 | the bits moved right by n; unchanged for negative n |
| `Octets.ShiftLeftValue` | src/zen_octet.c:2326-2348 | that is value * 2^n mod 256^len |
| `Octets.ShiftRightValue` | src/zen_octet.c:2387-2408 | that is value / 2^n |
| `Octets.Octet.CircularShrBits` | src/zen_octet.c:2485-2516 | the bits rotated right by n, for every n from 0 on; unchanged for negative n |
| `Octets.Octet.CircularShlBits` | src/zen_fuzzer.c:160-189 | the bits rotated left by n, for every n from 0 on; unchanged for negative n |
| `Octets.RotationsAdd` | src/zen_fuzzer.c:160-189 | amounts of rotation add |
| `Octets.RotateBack` | src/zen_octet.c:2485-2516 | the two rotations undo each other on octets |
| `Octets.RotateTwice` | src/zen_fuzzer.c:160-189 | two rotations of an octet are the one by the sum |
| `Base32.Encode` | src/encoding.c:362-385 | the padded 5-bit groups, '=' up to exactly 8 ceil(len/5) characters, NUL |
| `Base32.Decode` | src/encoding.c:387-410 | the symbols before the first '=', anything else skipped, cut to bytes |
| `Base32.RoundTrip` | src/encoding.c:362-410 | decoding undoes encoding for every length |
| `Base32.CrockfordEncode` | src/encoding.c:455-478 | the symbols and, on request, the check symbol of the whole big-endian value modulo 37 |
| `Base32.CrockfordDecode` | src/encoding.c:480-497 | -1 exactly for an unknown character; otherwise the bytes read off the or-ed table values, the four above the alphabet included; the cut of the bits for symbols |
| `Base32.SpreadIsCut` | src/encoding.c:480-497 | reading bytes off the accumulator as it fills is cutting the bits, when all values are symbols |
| `Base32.FedStep` | src/encoding.c:480-497 | a wrapping 32-bit accumulator gives the bytes of an unbounded one |
| `Base32.CrockfordRoundTrip` | src/encoding.c:455-497 | decoding undoes encoding, with and without check symbol |
| `Base32.AlphabetsAre` | src/encoding.c:342-434 | the standard alphabet, and Crockford's in increasing order without I, L, O and U |
| `Base32.ReadersAre` | src/encoding.c:344-453 | which characters the readers take, look-alikes and both cases included |
| `Base32.CheckSymbolsAre` | src/encoding.c:473-473 | the check symbols above the alphabet are * ~ $ = U |
| `Base32.KnownAnswers` | src/encoding.c:362-478 | the letter f is MY====== and CR |
| `Bip39.WordNumber` | src/encoding.c:562-567 | the number of the i-th group of eleven bits |
| `Bip39.FromData` | src/encoding.c:544-575 | success exactly for 16 to 32 bytes in steps of four; then the phrase of data and digest byte |
| `Bip39.SetWord` | src/encoding.c:623-628 | the bits of a word set in place |
| `Bip39.ToBits` | src/encoding.c:577-642 | the bits of a phrase of 12, 18 or 24 known words, 0 for any other text |
| `Bip39.CheckAndBits` | src/encoding.c:645-667 | accepts exactly readable phrases whose checksum bits are those of the digest, and returns the data |
| `Bip39.SplitPhrase` | src/encoding.c:577-642 | cutting a phrase at its blanks gives the words back |
| `Bip39.PhraseOfSplit` | src/encoding.c:577-642 | a text whose pieces are these words is the phrase |
| `Bip39.CheckEncoded` | src/encoding.c:544-667 | the checker accepts what the encoder prints, with the same bytes, exactly for 16, 24 and 32 bytes |
| `Bip39.PhraseBits` | src/encoding.c:544-575 | the words carry the data and then the leading bits of the first digest byte, one for every four bytes |
| `Bip39.FlatBits` | src/encoding.c:562-567 | eleven bits to a word, most significant first |
| `Bip39.AcceptedExactly` | src/encoding.c:645-667 | accepted are exactly the phrases of 16, 24 or 32 bytes |
| `Bip39.EncodeAccepted` | src/encoding.c:544-667 | every accepted phrase is the one its data encode to |

## Left out

Hypotheses:

- `CurveGroup.IsGroup` collects what is assumed of the curve: p and n are prime, chord-and-tangent addition is associative, and n P is the point at infinity. Closure, commuting steps and everything about multiples is proved from it.
- `Bip39.GoodList`: the word list is any list of 2048 different words of one to nine characters without blanks; the English list itself is not transcribed. SHA-256 is an arbitrary function to 32 bytes.
- Random bytes are a parameter: the sequence of draws (`EcdsaSpec.Seed`).
- What the system allocator returns is a parameter of each request; a granted block shares no byte with the pool, and its address is not live.

Not modelled:

- The ARM assembly variants of `u32_muladd64`, the variant for constant-time 64-bit multiplication, `zeroize`, and all claims about timing.
- `p256_gen_keypair`, `p256_validate_pubkey` and `p256_validate_privkey`: short wrappers around functions that are modelled.
- Lua plumbing, command line, bindings, I/O, logging and the wrappers around AMCL, ed25519, MAYO and Longfellow.
- Base45, hex, url64, varint and the other text formats: they would only add easy members.
- `sfpool_teardown`, profiling counters, `mmap` and `mlock`.

What a member leaves open:

- Ecdsa.ScalarGenWithPub: the generator's retry limit is modelled, the quality of the draws is not.
- Montgomery.Modulus.Mul: the moduli are immutable values loaded into arrays, not C globals; results may overwrite an operand as the original allows.
- Base58.Encode: sizes are unbounded, so the product (binsz - zcount) * 138 does not wrap; the two character tables are given by their runs.
- Base58.Decode: the C array read at `outi[0]` for an empty buffer is shown never to happen.
- Bech32.Encode: output written before a rejection is not stated, nor what Bech32.Decode leaves in its buffers on rejection.
- BitGroups.ConvertBits: the output count starts at zero, as in both calls.
- BigSqrt.ModSqrt: BIG values are unbounded integers; `BIG_jacobi` is the residue definition of the symbol at a prime.
- Pool.Sfpool.Init: the pool of 2^32 bytes or more is described by its fields only; the other operations are for pools that are intact.
- Bech32.ThreeRejected: BIP 173 states the detection of four wrong symbols; the fourth rests on a search over all patterns and is not proved.
- Pool.Sfpool.Realloc: profiling is left out, and a pointer that is neither live nor NULL is outside the contract, as in C.
- Octets.Octet.CircularShlBits: an empty octet is excluded for amounts from 0 on, where the original divides by zero; CircularShrBits likewise.
- Base32.Encode: the accumulator is an unsigned word; the original's is a signed int of which only the low twelve bits are read.
