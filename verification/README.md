# lnurlcash-kit, modelled and proved in Dafny

lnurlcash-kit is a wallet library for LNURLcash (LUD-25): money held as bearer notes, each a secret that opens a taproot
output key, which a SERVICE (a mint) files, burns and re-issues over plain GETs. This project models its deterministic
core and proves what that core is relied on for.

- **Text values** (`bech32.py`): the 30-bit checksum register, the bit regrouping, encoding and decoding. The register is
  taken as a linear map over GF(2) that loses nothing, which gives burst detection at every length; encoding and decoding
  are inverse in both directions.
- **Values on top of it** (`recoverable.py`, `spend.py`, `bolt11.py`): amounts in certificate prefixes, the `cw1` frame, the
  shapes a `k1` can have.
- **Taproot spends** (`spend.py`, `recoverable.py`): merkle fold, leaf rules, signature message, a bearer preimage as the
  short form of a script path. SHA-256 is an arbitrary function to 32 bytes, so binding is stated as "equal, or these two
  inputs collide", with the inputs computed.
- **Key derivation** (`cash.py`, `recoverable.py`): BIP-32 steps and the superseded tweak, over a group of prime order
  written by exponents, whose x coordinates identify a key with its negation and nothing else; `Keys.CurvesExist` shows
  these assumptions can be met.
- **Fees** (`fees.py`): the floor-division fee and the doubling and binary search that inverts it.
- **Lossy mutations** (`protocol.py`, `errors.py`, `client.py`): requests, the reading of answers, exceptions that carry
  fresh secrets, and the retry loop over a network that loses requests and answers while other wallets use the same
  SERVICE. The SERVICE is an arbitrary state machine; custody needs the hypothesis `KeepsFaith` (a landed mutation stays
  landed and is answered by OK, by a dead input, or by nothing usable). `FaithIsNeeded` gives a SERVICE without it at which
  the library loses the only copy of a note, and `SecretsLostExactly` says exactly when a run does.
- **A SERVICE that meets the hypotheses** (`Ledger`): notes, burned notes and a replay log, as LUD-25's section "Retrying a
  mutation" asks for. Soundness and conservation of value over every run of calls, and whole runs of the client against it.
- **Address proofs** (`signature.py`): the registration message of LUD-26 and what a signature over it binds.
- **Certificates and note URLs** (`signature.py`, `note.py`, `spend_domain_of` in `spend.py`): the domain a text names, the
  certified message, the verdict on a note URL, and the rewrite of a note URL's query after a mutation.

Loops and state follow the source: the checksum loops, `convertbits`, `check_leaf_policy`, the `cw1` reader and builder,
the gross-up search, the derivation loop, the note rewrites and the client's retry loop are methods with invariants, proved
against functions; the client, its network and an exception in flight are classes, since the client assigns
`new_secrets` to an exception after it is raised. Bitwise operations of `convertbits` are written as the arithmetic they
are on numbers of any width; the checksum register is a 30-bit vector.

Where the code and its documents differ, the code is followed: THREAT-MODEL.md says the library adds no retries, while
`client.py` re-sends a replayable mutation. Five promises are not kept, and each has its failing input and its exact
condition:

- Four docstrings say "Never raises" (recoverable.py:668 and 715, signature.py:408 and 430). Reading a bearer preimage
  whose tweak is at least the group's order, or takes the fixed key to the point at infinity, raises, and so do the
  three functions that call it: an event of probability about 2^-128. `Spends.RaisesExactly`,
  `Signature.SignatureRaisesExactly` and `Signature.UrlRaisesExactly` say that each raises in that case and in no
  other; with a hash whose every byte is 0xFF, `Spends.EveryPreimageRaises` and `Signature.EveryBearerUrlRaises` show
  it raise on every bearer preimage.
- `verify_note_url` promises the domain "from the URL's own host" (signature.py:426), but reduces the URL to its host
  and then that host again. `Hosts.ReadTwiceExactly`: the second reading gives the host back if and only if it has no
  colon or bracket in it, no whitespace around it, and does not begin with `lnurl1`. `Signature.VerifiedUrlIsSound`
  carries that condition and `Signature.FreshNoteVerifies` needs no more than it. Where it fails,
  `https://[2001:db8::1]/` is judged as `2001` and accepts a note of that mint's, and a host such as `lnurl1.example`
  is refused its own current certificates.
- `probe_burned_note` promises that 'gone' means the carried secrets "are the only money left" (client.py:261-268).
  Where another holder of the bearer note rotates it first and the wallet's request is lost, the note probes gone, the
  fresh secret is no note, and the wallet's rotate is never applied: `Ledger.GoneIsNotOurs`. `Ledger.ProbeDecides`:
  with anybody else calling meanwhile, a gone note's mutation has landed if and only if the SERVICE files the fresh
  note, which an informational GET on the fresh secret tells (`Ledger.FreshGetDecides`). A live note's has not landed
  yet, but a slow request still may (`Ledger.LiveIsNotForGood`).
- A SERVICE that refuses a retry is said to leave the caller "exactly where an un-retried failure would have"
  (client.py:77-79). `Client.FaithIsNeeded` is a run that loses by its retry secrets an un-retried one carries;
  `Client.RetryLosesExactly`: a retried run does so if and only if it sent more than once and its last answer refuses
  on grounds other than a dead input.
- Address proofs are said not to be replayable at another SERVICE (THREAT-MODEL.md:71-73). A proof that unregisters
  `bob` at `2001:db8::1` unregisters `db8::1:bob` at `2001`: `AddressProofs.Ipv6ProofServesTwice`.
  `AddressProofs.AnotherReadingExactly` says which messages another domain shares, and where neither domain has a
  colon `AddressProofs.ProofIsForOneService` keeps the promise.

## Model

| member | source | states |
|---|---|---|
| Checksum.Polymod | src/lnurlcash_kit/bech32.py:25-33 | The doubly nested loop computes the run of a shift register that first advances by its taps and then adds the value. |
| Checksum.RegisterLossless | src/lnurlcash_kit/bech32.py:25-33 | For these five generators the register step is additive under exclusive or and no nonzero 30-bit state advances to zero. |
| Checksum.ChecksumExactlyOne | src/lnurlcash_kit/bech32.py:40-47 | After any values exactly one six-symbol suffix verifies, the one the encoder creates. |
| Checksum.WindowUnique | src/lnurlcash_kit/bech32.py:25-33 | Two windows of at most six symbols that leave the register alike, whatever is before and after them, are the same. |
| Checksum.BurstDetected | src/lnurlcash_kit/bech32.py:25-41 | At every length, changing symbols only within six consecutive positions makes a verifying string fail. |
| Regroup.Convert | src/lnurlcash_kit/bech32.py:50-71 | The masked-accumulator loop computes the regrouping of the input's bit string, padded or strict, and fails exactly when that does. |
| Regroup.EmitWords | src/lnurlcash_kit/bech32.py:62-64 | The inner loop moves whole words from the accumulator to the output and keeps every waiting bit. |
| Regroup.AbsorbWord | src/lnurlcash_kit/bech32.py:60-61 | Masking the accumulator never drops a bit that has not been emitted. |
| Regroup.PaddedKeepsBits | src/lnurlcash_kit/bech32.py:65-67 | For all positive widths padded output is the input's bit string and fewer than `tobits` zeros; it fails only on a value out of range. |
| Regroup.StrictKeepsBits | src/lnurlcash_kit/bech32.py:68-71 | Strict output is the input's bit string short of fewer than `frombits` zeros. |
| Regroup.NarrowAndBack | src/lnurlcash_kit/bech32.py:50-71 | Regrouping to words no wider, padded, and back, strictly, returns the data. |
| Regroup.WidenAndBack | src/lnurlcash_kit/bech32.py:50-71 | Whatever the strict side accepts, regrouping back returns exactly it. |
| Regroup.SameNumberSameBits | src/lnurlcash_kit/bech32.py:50-71 | Words of two widths with as many bits in all have one bit string if and only if they spell one number, most significant digit first. |
| Bech32.OpenExact | src/lnurlcash_kit/bech32.py:74-109 | A data part opens to a payload if and only if it is the data part encoding makes of that payload. |
| Bech32.SplitExact | src/lnurlcash_kit/bech32.py:98-103 | Splitting at the last `1` finds a prefix and symbols if and only if the text is those two joined, within the limit, even when the prefix contains `1`. |
| Bech32.DecodeExact | src/lnurlcash_kit/bech32.py:74-109 | Decoding gives a prefix and payload if and only if the text, in one case throughout, is their encoding; so each payload has one lowercase string. |
| Bech32.RoundTrip | src/lnurlcash_kit/bech32.py:74-109 | Every payload within the limit under every nonempty lowercase printable prefix decodes back. |
| Bech32.ReadsInCapitals | src/lnurlcash_kit/bech32.py:85-97 | A string in capitals reads as it does in small letters. |
| Bech32.ProperExactly | src/lnurlcash_kit/bech32.py:85-97 | The prefixes that round-trip are any characters from `!` to `~` but capitals. |
| Bech32.WithinLimit | src/lnurlcash_kit/bech32.py:74-82 | Encoding is refused exactly above 2048 characters. |
| Bech32.NeverBoth | src/lnurlcash_kit/bech32.py:10-22 | No string decodes under both constants, so bech32 and bech32m values are never taken for each other. |
| Bech32.KnownBech32String | src/lnurlcash_kit/bech32.py:17-109 | BIP-173's `a12uel5l`, the shortest valid string, is what the prefix `a` and no payload encode to, and decodes back. |
| Bech32.KnownBech32mString | src/lnurlcash_kit/bech32.py:17-109 | The same of BIP-350's `a1lqfn3a` under its constant. |
| Bech32.ExpandsExactly | src/lnurlcash_kit/bech32.py:36-37 | Of every prefix, the expansion is each character's high bits in the prefix's order, a zero, and each one's low five bits in that order again. |
| Bech32.KnownAlphabetString | src/lnurlcash_kit/bech32.py:17-109 | BIP-173's string with the prefix `abcdef` and every symbol in it encodes and decodes the standard's 20 bytes: expansion, all 32 symbols, bit order and checksum are the standard's. |
| Bech32.BurstNeverDecodes | src/lnurlcash_kit/bech32.py:85-109 | A decodable string in either case, changed beyond case only inside six consecutive positions of its data part, to any characters but the separator, no longer decodes. |
| Certificates.SuffixRoundTrip | src/lnurlcash_kit/recoverable.py:143-174 | Every amount reads back from its own suffix. |
| Certificates.SuffixIsShortest | src/lnurlcash_kit/recoverable.py:143-153 | The suffix written is no longer than any spelling of the amount in any unit. |
| Certificates.SuffixAgreesWithBolt11 | src/lnurlcash_kit/bolt11.py:30-51 | Any digits and unit mean the same amount, or none, in a certificate prefix and in an invoice of any network. |
| Certificates.UnitsAreDecimal | src/lnurlcash_kit/bolt11.py:30-51 | A BTC is 10^8 sat of 1000 msat, each unit is a thousandth of the one before, and pico-BTC are an amount only where they are whole msat. |
| Certificates.KnownAmount | src/lnurlcash_kit/bolt11.py:30-51 | An invoice of any network for `20m` and a certificate suffix `20m` are 2,000,000,000 msat. |
| Certificates.Cs1RoundTrip | src/lnurlcash_kit/recoverable.py:177-208 | A certificate reads back its amount and its 65-byte signature although the prefix may contain the separator. |
| Certificates.Cs1Shape | src/lnurlcash_kit/recoverable.py:189-208 | What reads as a certificate has 65 bytes, the last a recovery id of at most 3. |
| Certificates.Cs1EncodesExactly | src/lnurlcash_kit/recoverable.py:177-186 | Encoding refuses exactly a negative amount and a signature that is not 65 bytes, and never an amount of up to 1900 digits. |
| Cw1Frame.BuildFrame | src/lnurlcash_kit/spend.py:300-310 | The loop builds the header and length-prefixed items; it refuses a time exactly where one is no u32, and after that exactly the items that do not fit. |
| Cw1Frame.ReadItems | src/lnurlcash_kit/spend.py:321-331 | The index loop reads the items whose length prefixes consume the payload exactly, or fails. |
| Cw1Frame.Cw1Exact | src/lnurlcash_kit/spend.py:300-338 | A value decodes to a spend if and only if, stripped and in one case, it is that spend's encoding. |
| Cw1Frame.Cw1RoundTrip | src/lnurlcash_kit/spend.py:300-338 | Every spend that encodes decodes back to itself. |
| Cw1Frame.PayloadLayout | src/lnurlcash_kit/spend.py:300-310 | The payload byte by byte: locktime, sequence, then the leaf and the control block behind two-byte lengths, most significant byte first, then the witness. |
| Cw1Frame.EncodesExactly | src/lnurlcash_kit/spend.py:286-310 | Encoding refuses exactly a time that is no u32 and an item above 65535 bytes, and never exceeds 8192 characters. |
| Fees.ProportionalIsFloor | src/lnurlcash_kit/fees.py:93-105 | The split computation is the floor of gross times ppm over a million. |
| Fees.NetExactly | src/lnurlcash_kit/fees.py:93-112 | What a fee leaves of any gross is all but the base fee and the floor of gross times ppm over a million, or nothing exactly where that is everything. |
| Fees.BaseFeeCosts | src/lnurlcash_kit/fees.py:108-112 | Each msat more of base fee costs exactly one msat of net until nothing is left. |
| Fees.NetSteps | src/lnurlcash_kit/fees.py:108-112 | One more msat of gross nets at most one more and never less. |
| Fees.GrossUpForMintFee | src/lnurlcash_kit/fees.py:115-138 | The two loops find the smallest gross that nets enough: it is the net and exactly what is withheld of it, every smaller gross leaves less, it is at most `g` if and only if `g` nets enough, doubling takes at most 20 rounds and the search logarithmically many. |
| Fees.SmallestGrossIsAdjoint | src/lnurlcash_kit/fees.py:115-138 | The smallest gross is the adjoint of the fee. |
| Fees.SmallestGrossIsExact | src/lnurlcash_kit/fees.py:115-138 | The smallest gross for a positive net nets exactly it. |
| Fees.SearchableExactly | src/lnurlcash_kit/fees.py:115-138 | Some gross nets something if and only if ppm is below a million, so the parser's bound is exactly what the search needs. |
| Fees.ParseToken | src/lnurlcash_kit/fees.py:44-64 | Every fee the parser yields is within the bounds the arithmetic asks for. |
| Fees.TokenReadsBack | src/lnurlcash_kit/fees.py:37-64 | An advertised base fee, ppm and optional address fee read back from any text that carries the token; a base or ppm out of range refuses it, an address fee out of range reads as none. |
| Fees.KnownToken | src/lnurlcash_kit/fees.py:37-64 | `Mint fees: 1000,10000` is a base fee of 1000 msat and 10,000 ppm. |
| LeafPolicy.CheckLeafPolicy | src/lnurlcash_kit/spend.py:366-398 | The one-pass scanner computes the recursive verdict: wrong version, a push past the end, an OP_SUCCESS, or allowed. |
| LeafPolicy.AllowedIffWellFormed | src/lnurlcash_kit/spend.py:355-398 | A leaf is allowed if and only if its version is 0xc0 and it is a sequence of complete pushes and single opcodes outside OP_SUCCESSx. |
| LeafPolicy.OneByteScripts | src/lnurlcash_kit/spend.py:355-398 | Which one-byte scripts are refused: 1 to 78 for pushing past the end, BIP-342's 87 reserved opcodes as hooks, and no other. |
| LeafPolicy.KnownPushes | src/lnurlcash_kit/spend.py:366-398 | Each kind of push with its least length, direct ones up to 75, is allowed whole and refused a byte short. |
| LeafPolicy.AppendToAllowed | src/lnurlcash_kit/spend.py:366-398 | Appending to an allowed script leaves only the appended part to judge. |
| LeafPolicy.PushedBytesNeverMatter | src/lnurlcash_kit/spend.py:366-398 | Rewriting pushed bytes changes neither the verdict nor where the pushes are. |
| LeafPolicy.PushedExactly | src/lnurlcash_kit/spend.py:366-398 | Of each operation the pushed positions are its data and no other byte. |
| Taproot.CompactSizeSelfDelimiting | src/lnurlcash_kit/spend.py:71-76 | A compact size tells where it ends: equal concatenations have equal numbers and rests. |
| Taproot.CompactSizeIs | src/lnurlcash_kit/spend.py:71-76 | Up to 252 one byte; up to 65535 the marker 253 and two bytes; above, 254 and four, least significant first. |
| Taproot.LeafMessageInjective | src/lnurlcash_kit/spend.py:96-98 | A leaf hash's message determines version and script. |
| Taproot.LeafHashIs | src/lnurlcash_kit/spend.py:96-98 | A leaf hashes its version, its length and its script under its own tag. |
| Taproot.BranchIsSorted | src/lnurlcash_kit/spend.py:134-140 | A branch hashes its two nodes under its own tag with the lesser number first. |
| Taproot.TweakExactly | src/lnurlcash_kit/spend.py:101-121 | A tweak adds the tagged hash of key and root, or of the key alone, to the lifted key, and fails exactly where the root is neither 32 bytes nor empty, or that is out of range or infinity. |
| Taproot.FoldControlBlock | src/lnurlcash_kit/spend.py:134-140 | The loop over a control block's offsets, from 33 on in steps of 32, computes the fold of its path. |
| Taproot.FoldReachesRoot | src/lnurlcash_kit/spend.py:124-145 | Every leaf of every tree, folded up its own siblings, reaches the root. |
| Taproot.FoldSound | src/lnurlcash_kit/spend.py:124-145 | A script and path that reach a tree's root name a leaf of that tree, or two computed inputs collide. |
| Taproot.LeafOpensTree | src/lnurlcash_kit/spend.py:101-145 | The control block built from a leaf's path, to depth 128, makes `output_key_of` return the tree's key. |
| Taproot.BlockNamesLeaf | src/lnurlcash_kit/spend.py:124-145 | A control block whose fold reaches a tree's root names a version and script that are a leaf of it, or a collision. |
| Taproot.OpensOnlyWellFormed | src/lnurlcash_kit/spend.py:124-145 | A control block that opens anything has 33 bytes and up to 128 siblings, and opens nothing with its parity bit flipped. |
| Taproot.BearerHashExact | src/lnurlcash_kit/spend.py:155-204 | A hash is read out of a leaf if and only if the leaf is exactly that hash's bearer leaf. |
| Taproot.BearerNoteOpens | src/lnurlcash_kit/spend.py:171-176 | A bearer note's own control block opens its own key. |
| Taproot.BearerNoteExactly | src/lnurlcash_kit/spend.py:101-121 | A hash has no bearer note if and only if the tweak is at least the group's order or the sum is the point at infinity, for a curve the fixed key is on. |
| Sighash.BuildSigMsg | src/lnurlcash_kit/spend.py:237-262 | The message built by appending has each of BIP-341's fields at its byte position, is the one `SigMsg` specifies, and is refused exactly for a key that is not 32 bytes. |
| Sighash.SigMsgLayout | src/lnurlcash_kit/spend.py:237-262 | The signature message is 174 bytes, or 211 for a script path, with BIP-341's fields at their places. |
| Sighash.SighashIs | src/lnurlcash_kit/spend.py:230-267 | The sighash and the prevout are tagged hashes under `TapSighash` and `LNURLcash/mint`. |
| Sighash.KeyPathClaimsNoTime | src/lnurlcash_kit/spend.py:269-275 | A key path signs locktime 0 and the final sequence. |
| Sighash.SighashBinds | src/lnurlcash_kit/spend.py:230-282 | Equal sighashes mean the same key, domain, locktime, sequence and leaf, or one of the listed pairs of hashed inputs collides. |
| Spends.ShapesDisjoint | src/lnurlcash_kit/recoverable.py:665-692 | No value is at once a preimage, a ck1 and a cw1, so dispatch order decides nothing. |
| Spends.ShortFormIsLongForm | src/lnurlcash_kit/spend.py:187-197 | A bearer preimage and the cw1 it is short for decode to the same spend and open the same key at every domain, with neither flag set. |
| Spends.BearerSpendEncodes | src/lnurlcash_kit/spend.py:187-197 | A bearer note's long form is its leaf and control block with the preimage alone, locktime 0 and the final sequence, and always fits the limits. |
| Spends.BearerLeafIs | src/lnurlcash_kit/spend.py:155-170 | A bearer leaf is three operations: hash the item, push the hash, compare. |
| Spends.RaisesExactly | src/lnurlcash_kit/recoverable.py:665-745 | Reading and verifying a k1 raise in exactly one case: a bearer preimage whose tweak is at least the group's order or sums to the point at infinity. |
| Spends.EveryPreimageRaises | src/lnurlcash_kit/recoverable.py:665-745 | With a hash whose every byte is 0xFF, both raise on every bearer preimage at every domain. |
| Spends.VerifiedScriptOpens | src/lnurlcash_kit/recoverable.py:712-745 | A verified script path's leaf passed the rules and opens the key reported; unless unevaluated its lone witness item hashes to the leaf's hash. |
| Spends.VerifiedOpens | src/lnurlcash_kit/recoverable.py:593-745 | A k1 verifies as a key and its flags if and only if it opens it so: a preimage of a bearer note's hash; a signature by that key over its sighash for the domain, or else over an older fixed message, or one that recovers to it; or a committed, allowed leaf, with its lone preimage of at most 520 bytes if it is a bearer leaf. |
| Spends.MadeCk1Verifies | src/lnurlcash_kit/recoverable.py:547-634 | A key and its signature for a domain, written as a ck1, verify there as current. |
| Spends.Ck1AlwaysEncodes | src/lnurlcash_kit/recoverable.py:98-103 | Every key and signature have a ck1. |
| Spends.Ck1IsForOneDomain | src/lnurlcash_kit/recoverable.py:593-634 | A ck1 verified as current at two domains bears one signature that verifies over two different messages, or the domains are one, or a listed pair of hashed inputs collides. |
| Keys.DeriveAlong | src/lnurlcash_kit/recoverable.py:358-365 | The loop that rebinds a node computes the walk along the indices, stopping where a step fails. |
| Keys.LevelsTellDomainsApart | src/lnurlcash_kit/cash.py:185-225 | Two domains have the same four levels if and only if their keyed hashes agree on the first 16 bytes, and then they share one SERVICE root. |
| Keys.DomainLevelsKeepEveryBit | src/lnurlcash_kit/cash.py:185-195 | The four levels are the first 16 bytes of the keyed hash, four bytes each, no bit masked and each a valid index. |
| Keys.ChildExactly | src/lnurlcash_kit/cash.py:77-115 | A child is made of one keyed hash, of the key itself from 2^31 on and of its point below: its key is the sum with the left half modulo the order, its chain code the right half; it fails exactly where the key or index is out of range, the left half is, or the sum is zero. |
| Keys.HardenedDependsOnOne | src/lnurlcash_kit/cash.py:95-102 | A hardened child is the same under any two hashes that agree at chain code, zero, key and index, whatever the curve. |
| Keys.UnhardenedDependsOnOne | src/lnurlcash_kit/cash.py:95-102 | An unhardened child is the same under any two hashes that agree at chain code, point and index. |
| Keys.InputsNeverMeet | src/lnurlcash_kit/cash.py:95-102 | The two kinds of input are both 37 bytes and never equal. |
| Keys.ChildCommutes | src/lnurlcash_kit/cash.py:77-141 | Public derivation of a node's public half is the public half of its private derivation, failing on the same indices. |
| Keys.IndicesExact | src/lnurlcash_kit/recoverable.py:303-340 | A path has indices if and only if it is one of the three kinds with every number below 2^31. |
| Keys.IndicesInjective | src/lnurlcash_kit/recoverable.py:330-340 | Different valid paths have different index lists. |
| Keys.IndicesAre | src/lnurlcash_kit/recoverable.py:330-340 | Account and share are hardened; the kind, 0, 1 or 2, and the note's index are not. |
| Keys.NoteKeyIsOne | src/lnurlcash_kit/recoverable.py:358-365 | A derived note's secret is its node's key, its public key that secret's point, its output key the point's x. |
| Keys.WatchOnlyAgrees | src/lnurlcash_kit/recoverable.py:358-389 | The key a watcher derives from a share's cx1 is the output key of the privately derived note, failing on the same inputs. |
| Keys.HardenedRefused | src/lnurlcash_kit/recoverable.py:383-389 | No cx1 derives a key at a hardened index. |
| Keys.LegacyHalvesAgree | src/lnurlcash_kit/recoverable.py:464-518 | For every branch key of either parity, purpose and index, the watch-only legacy key is the x of the derived secret's point, and the same indices are unusable. |
| Keys.TweakInput | src/lnurlcash_kit/recoverable.py:464-478 | The superseded tweak is the tagged hash of branch, chain code, purpose if any, and index, modulo the order, and fails exactly on a number that is no u32. |
| Keys.LegacyCx1Is | src/lnurlcash_kit/recoverable.py:445-447 | A branch is exported as the x of its key's point and its chain code. |
| Protocol.BurnedReads | src/lnurlcash_kit/errors.py:188-221 | A reason or `detail` that is LUD-25's wording in any mixture of cases, with any whitespace before and after it, reads as a spent note. |
| Protocol.TakenReads | src/lnurlcash_kit/errors.py:86-101 | The same words about an output read as an output in use, not as a spent note. |
| Protocol.UnknownReads | src/lnurlcash_kit/errors.py:188-221 | The wording "Unknown note." reads as an unknown note. |
| Protocol.RefusedExactly | src/lnurlcash_kit/errors.py:188-221 | Which class every ERROR is raised as, by the words in its reason in any case: exactly `pending`; `already in use` alone, or `spent` without it; `already in use` otherwise; `unknown` or `not found` without either. |
| Protocol.ErrorCarriesExactly | src/lnurlcash_kit/client.py:128-147 | An ERROR leaves a generated request's secrets with its caller if and only if its reason says the k1 is spent or unknown. |
| Protocol.SpentCallbackCarries | src/lnurlcash_kit/errors.py:189-194 | Any reason with `spent` in it and no `already in use` is raised as a spent note carrying every secret. |
| Protocol.BuildersGenerate | src/lnurlcash_kit/protocol.py:799-855 | A rotate, split or merge spends the whole list of notes it was given, mints to the hashes of its secrets in result order, carries those secrets and names them; it is refused exactly where its callback is or there are no notes. |
| Protocol.ResultsNameTheirOwn | src/lnurlcash_kit/protocol.py:342-347 | Each result hands back its request's secrets under their own names and, for each output, the certificate under that output's name now, or its older name where the current one is missing. |
| Protocol.UnrefusedExactly | src/lnurlcash_kit/client.py:128-170 | Anything unreadable is ambiguous and a withheld certificate unverifiable, both carrying every fresh secret. |
| Protocol.MeltIsBuilt | src/lnurlcash_kit/protocol.py:635-654 | A melt names its note and its trimmed invoice and is never replayable. |
| Protocol.CertificatesOwedExactly | src/lnurlcash_kit/protocol.py:584-618 | An OK succeeds if and only if every output has its certificate or was named by a hash and the policy lets it go. |
| Protocol.AttemptCarriesExactly | src/lnurlcash_kit/client.py:128-170 | An attempt leaves the caller with all fresh secrets if and only if its answer is not a refusal on grounds other than a dead input. |
| Protocol.HexIsNoCp1 | src/lnurlcash_kit/protocol.py:578-581 | The hex hash a generated request names is never taken for a cp1. |
| Client.LastAttemptDecides | src/lnurlcash_kit/client.py:172-185 | A run's outcome is that of its last attempt, and it leaves the SERVICE as all its attempts did. |
| Client.SecretsSurvive | src/lnurlcash_kit/client.py:128-185 | Custody: under the hypothesis on the SERVICE, if a mutation landed in any attempt, the run ends with a result or an exception carrying every fresh secret in order, whatever was lost and whoever else was there. |
| Client.SecretsLostExactly | src/lnurlcash_kit/client.py:128-185 | With no hypothesis, a run loses its secrets if and only if its last answer refuses on other grounds. |
| Client.FaithIsNeeded | src/lnurlcash_kit/client.py:128-185 | At a SERVICE without the hypothesis one lost answer and a retry end with a landed mutation and no secrets. |
| Client.RetryLosesExactly | src/lnurlcash_kit/client.py:72-82 | A retried run loses the secrets an un-retried one keeps if and only if it sent more than once and its last answer refuses on other grounds. |
| Client.RetryIsOneExchange | src/lnurlcash_kit/client.py:113-185 | On a quiet network, at a SERVICE that replays, if any awaited answer arrives, outcome and SERVICE are those of one exchange that lost nothing. |
| Client.AtMostOnce | src/lnurlcash_kit/client.py:172-185 | On a quiet network, however many attempts get through, a SERVICE that replays is as it was or as one call leaves it. |
| Client.SentAtMost | src/lnurlcash_kit/client.py:172-185 | Where every awaited answer but the last is lost, a request goes out once and once for each re-send allowed. |
| Client.MeltSentOnce | src/lnurlcash_kit/protocol.py:635-654 | A melt goes out exactly once, whatever the retry setting and whatever becomes of it. |
| Client.LnurlcashClient.AttachSecrets | src/lnurlcash_kit/client.py:128-147 | Secrets are attached to the raised exception in place, or to the one that replaces an ambiguous one. |
| Client.LnurlcashClient.Attempt | src/lnurlcash_kit/client.py:158-170 | One attempt consumes one event, sends one GET, and returns or raises what its answer comes to. |
| Client.LnurlcashClient.Run | src/lnurlcash_kit/client.py:172-185 | The retry loop does exactly the modelled run, sending the same request each time; offline or a refused URL sends nothing. |
| Client.SettleNeverKeepsBurned | src/lnurlcash_kit/client.py:277-311 | If settling's rotate landed in any attempt, it returns the fresh secret with the rotate's own certificate, or raises with the secret, never the old k1. |
| Client.ProbeRestsOn | src/lnurlcash_kit/client.py:261-275 | The probe says live exactly on a withdrawRequest echoing this note, gone exactly on a refusal whose words say it is spent or unknown, and otherwise, another note's echo included, unknown. |
| Ledger.AppliedExactly | tests/test_protocol.py:315-328 | A mutation applied burns exactly its inputs, which were live, mints exactly its outputs, each for its share, touches no other note, and makes or loses no value. |
| Ledger.EveryRunKeeps | tests/test_protocol.py:197-207 | Over every run of calls no note is both outstanding and burned, nothing burned or answered is forgotten, and value is conserved. |
| Ledger.EveryAttemptKeeps | src/lnurlcash_kit/client.py:172-185 | The same holds of a ledger through every lossy run of the client with other wallets in between. |
| Ledger.LedgerKeepsFaith | src/lnurlcash_kit/client.py:72-82 | A SERVICE with a replay log meets the custody hypothesis in every state. |
| Ledger.LedgerReplays | src/lnurlcash_kit/client.py:72-82 | It answers an identical mutation as it did the first time and changes nothing more. |
| Ledger.DiscardedRunSpentNothing | src/lnurlcash_kit/client.py:128-147 | A run that ends without its secrets leaves the ledger exactly as the other wallets' calls alone would have. |
| Ledger.RefusalIsForGood | src/lnurlcash_kit/client.py:139-140 | After a refusal on grounds other than a dead input the mutation is never applied, whatever is asked later, copies of the call included. |
| Ledger.DiscardedForGood | src/lnurlcash_kit/client.py:128-147 | After a run that ends without its secrets the mutation is not applied and never will be, even by requests of that run that arrive after it. |
| Ledger.SettledOnOldNote | src/lnurlcash_kit/client.py:277-311 | If settling hands back the old secret, at the amount the SERVICE stated, its rotate left the ledger as the other wallets' calls alone would have. |
| Ledger.OneCallAmongOthers | src/lnurlcash_kit/client.py:172-185 | Whatever is lost and whatever other wallets call in between, after any number of attempts the ledger is what the others' calls make of it in their order, with this call made once among them where it applied, or not at all. |
| Ledger.MutationEndToEnd | src/lnurlcash_kit/client.py:72-82 | With other wallets calling between attempts, if any awaited answer arrives, a generated mutation has been applied once among their calls, exactly as one call makes it, or not at all; the caller is told by that one call's answer, with every fresh secret where it landed and an exception where it did not. |
| Ledger.RotateEndToEnd | tests/test_protocol.py:551-566 | On a quiet network, if any awaited answer arrives, the note's whole value has moved once to the fresh id, nothing else changed, and the caller holds the fresh secret. |
| Ledger.LiveMeansNotLanded | src/lnurlcash_kit/client.py:261-275 | For any mutation that names the note and any events, a live probe means it has not landed and the ledger is what the others' calls made of it. |
| Ledger.FreshNoteDecides | src/lnurlcash_kit/client.py:261-275 | If nobody else mints to a mutation's output, the mutation has landed if and only if that id is outstanding or burned. |
| Ledger.FreshGetDecides | src/lnurlcash_kit/client.py:261-275 | An informational GET on the fresh secret is answered as unknown if and only if the mutation has not landed. |
| Ledger.ProbeDecides | src/lnurlcash_kit/client.py:261-275 | On any network and whoever else calls, live means the mutation left no trace; gone means its input is burned, by it if and only if the fresh note is filed, and otherwise it will never land; unknown means the probe's own answer did not arrive. It asks that nobody else mints to the fresh note. |
| Ledger.GoneIsNotOurs | src/lnurlcash_kit/client.py:264-268 | Another holder's rotate and a lost request make the note probe gone while the fresh id is neither outstanding nor burned, and the wallet's rotate never lands. |
| Ledger.LiveIsNotForGood | src/lnurlcash_kit/client.py:264-268 | A rotate that arrives after a live probe is applied. |
| Ledger.QuietProbeDecides | src/lnurlcash_kit/client.py:261-275 | On a quiet network the old note probes live if and only if nothing landed, and gone if and only if the fresh secret is the note. |
| Signature.MessageInjective | src/lnurlcash_kit/signature.py:188-192 | A certificate's message names one domain, one amount and one note id, even when the host contains colons. |
| Signature.LegacyMessageInjective | src/lnurlcash_kit/signature.py:203-207 | A legacy message names one amount and one id. |
| Signature.MessagesRead | src/lnurlcash_kit/signature.py:188-207 | The two messages letter by letter. |
| Signature.DigestIs | src/lnurlcash_kit/signature.py:166-170 | A digest is the hash of the hash of a Lightning node's prefix and the message. |
| Signature.MessageIsNotLegacy | src/lnurlcash_kit/signature.py:188-207 | A current message never equals a legacy one. |
| Signature.DigestBinds | src/lnurlcash_kit/signature.py:166-200 | One digest certifies one note at one domain for one amount, or two computed inputs collide. |
| Signature.CertifiedExactly | src/lnurlcash_kit/signature.py:340-356 | The verdict is the newest message the mint's key signed over this key or lock hash and this amount, and none if it signed none. |
| Signature.LegacyFormsRead | src/lnurlcash_kit/signature.py:244-270 | 65 bytes of hex or of a `cs` string without an amount read as a legacy certificate for any amount, and as no current one. |
| Signature.LegacyBytesExactly | src/lnurlcash_kit/signature.py:244-270 | What a legacy certificate holds on any text: the 65 bytes of any `cs` string, and otherwise only those of hex. |
| Signature.SpacesSkipped | src/lnurlcash_kit/signature.py:244-270 | Hex is read past the six characters of ASCII whitespace between bytes and past nothing else. |
| Signature.MintKeyExactly | src/lnurlcash_kit/signature.py:273-297 | The mint's key is given as hex in either case with whitespace around it, and is the key recovered. |
| Signature.LayoutsExactly | src/lnurlcash_kit/signature.py:273-297 | A legacy certificate's recovery id may be at either end, a current one's only at the last. |
| Hosts.ReadTwiceExactly | src/lnurlcash_kit/spend.py:210-227 | Reducing a host again gives that host if and only if it has no colon or bracket, no whitespace around it, and no leading `lnurl1` in any case. |
| Hosts.Ipv6IsMisread | src/lnurlcash_kit/spend.py:210-227 | The bare host `2001:db8::1` is reduced to `2001`. |
| Hosts.LnurlHostIsRefused | src/lnurlcash_kit/spend.py:210-227 | The bare host `lnurl1.example` is read as a bech32 LNURL and names no domain. |
| Hosts.BareHostHasNoColon | src/lnurlcash_kit/spend.py:210-227 | A bare host, with or without a port, is reduced to a domain without a colon. |
| Hosts.HostAndPort | src/lnurlcash_kit/spend.py:210-227 | A host and port in any case, with whitespace around them, are reduced to the host in lower case. |
| Hosts.LnurlReadsAsItsText | src/lnurlcash_kit/spend.py:210-227 | A bech32 LNURL is reduced to the host of the text it encodes. |
| AddressProofs.MessageTellsExactly | src/lnurlcash_kit/signature.py:75-106 | Two proof messages are equal if and only if action and share are, and domain and username joined by a colon are. |
| AddressProofs.AnotherReadingExactly | src/lnurlcash_kit/signature.py:75-106 | A message is another domain's too if and only if its domain or its username has a colon, text on both sides, that could part them instead. |
| AddressProofs.ProofIsForOneService | src/lnurlcash_kit/signature.py:142-163 | A proof that verifies for two requests to domains without colons is for one action, domain, username and share, chain code and parity included, or verifies over two digests, or two inputs collide. |
| AddressProofs.Ipv6ProofServesTwice | src/lnurlcash_kit/signature.py:142-163 | A signature unregisters `bob` at `2001:db8::1` if and only if it unregisters `db8::1:bob` at `2001`. |
| AddressProofs.Cx1AlwaysEncodes | src/lnurlcash_kit/recoverable.py:244-248 | Every share has a canonical spelling within the limit. |
| AddressProofs.Cx1Exactly | src/lnurlcash_kit/recoverable.py:251-265 | What reads as a share: 65 bytes under `cx`, the last 33 a compressed point. |
| AddressProofs.AcceptedExactly | src/lnurlcash_kit/signature.py:75-106 | A request is accepted exactly where it names a domain, a user and one of three actions, and binds a share unless it removes one, and then claims just those. |
| AddressProofs.ProofVerifiesExactly | src/lnurlcash_kit/signature.py:142-163 | A proof of an accepted request verifies under a share exactly where it is a signature of that share's key over the hash of the message. |
| AddressProofs.BindingReads | src/lnurlcash_kit/signature.py:75-106 | A register or update message letter by letter. |
| AddressProofs.UnregisterReads | src/lnurlcash_kit/signature.py:75-106 | An unregister message letter by letter. |
| Signature.VerdictIsSound | src/lnurlcash_kit/signature.py:386-420 | A truthy verdict means the k1 opens its key at the domain by signature or preimage, was evaluated, and the mint's key signed for that key, or for the hash its leaf locks to, and this amount. |
| Signature.VerdictExactly | src/lnurlcash_kit/signature.py:386-420 | What the check says of any k1 that opens a key at the domain: not certified where the leaf is left to the mint, and otherwise exactly the newest message signed for that key, or for the hash its leaf locks to. |
| Signature.NothingOpened | src/lnurlcash_kit/signature.py:386-420 | A k1 that opens nothing at the domain is not certified, or raises. |
| Signature.VerifiedUrlIsSound | src/lnurlcash_kit/signature.py:423-444 | A truthy verdict on a URL means all that for the URL's own k1 and certificate at the amount returned, at the domain its host is reduced to again, which is the URL's own host if and only if that host reads as itself. |
| Signature.UrlVerdictExactly | src/lnurlcash_kit/signature.py:423-444 | A URL with a host, k1, certificate and amount is judged as that k1 and certificate at that host and amount. |
| Signature.AmountExactly | src/lnurlcash_kit/signature.py:423-444 | The amount is the one the certificate states or, if it states none, the one the URL declares. |
| Signature.AmountCannotBeMoved | src/lnurlcash_kit/signature.py:244-270 | A certificate that states one amount certifies no other under any message. |
| Signature.FreshNoteVerifies | src/lnurlcash_kit/signature.py:423-444 | A fresh secret and the certificate issued for its note at a host that reads as itself, written into any note URL there, verify over `Q` at that amount. |
| Signature.OpenedNoteVerifies | src/lnurlcash_kit/signature.py:423-444 | Any k1 in lower case that opens an evaluated note at a host that reads as itself, written with the note's certificate into any note URL there, verifies over `Q` at that amount. |
| Signature.FreshCk1Verifies | src/lnurlcash_kit/signature.py:423-444 | A ck1 signed for the URL's host and the certificate of its key verify over `Q` at that amount. |
| Signature.Ipv6UrlTakesAnothersNote | src/lnurlcash_kit/signature.py:423-444 | A URL whose host is `[2001:db8::1]` verifies a note issued for `2001`. |
| Signature.LnurlHostUrlRefusesItsOwn | src/lnurlcash_kit/signature.py:423-444 | At a URL whose host is `lnurl1.example` no certificate over `Q` that names a domain passes, its own SERVICE's included. |
| Signature.SignatureRaisesExactly | src/lnurlcash_kit/signature.py:386-420 | The signature check raises exactly where reading the spend does. |
| Signature.UrlRaisesExactly | src/lnurlcash_kit/signature.py:423-444 | The URL check raises if and only if the URL names a host, a k1, a certificate and an amount and its k1 is a bearer preimage whose tweak is refused so. |
| Signature.EveryBearerUrlRaises | src/lnurlcash_kit/signature.py:423-444 | With a hash whose every byte is 0xFF, it raises on every such URL whose k1 is a bearer preimage. |
| Note.WithNewK1 | src/lnurlcash_kit/note.py:160-191 | The appending loop computes the rewrite that replaces in place and appends what is missing. |
| Note.WithoutK1 | src/lnurlcash_kit/note.py:194-220 | The same with the secret dropped. |
| Note.LastRewriteWins | src/lnurlcash_kit/note.py:160-220 | On every pair list a second rewrite of the same shape gives what it would have given alone. |
| Note.WithoutForgetsWith | src/lnurlcash_kit/note.py:160-220 | Rewriting is idempotent, a later secret replaces an earlier one, and `without_k1` after `with_new_k1` is `without_k1` alone. |
| Note.OthersKept | src/lnurlcash_kit/note.py:160-220 | Unrelated pairs are kept, repeats and all, in order, and none is added. |
| Note.NoteReadsBack | src/lnurlcash_kit/note.py:35-89 | Secret, certificate and amount read back as given, or the amount the certificate states. |
| Note.SignatureExactly | src/lnurlcash_kit/note.py:84-89 | On any pair list the certificate is the first `c`, unless that is missing or empty, and then the first `sig`. |
| Note.K1Exactly | src/lnurlcash_kit/note.py:35-44 | On any pair list the secret is the first `k1`, in lower case. |
| Primitives.TaggedBinds | src/lnurlcash_kit/spend.py:66-68 | Equal tagged hashes have equal tags and data, or two computed inputs collide. |
| Primitives.LiftOfX | src/lnurlcash_kit/spend.py:79-87 | Lifting a key's x coordinate gives the one of it and its negation with even y. |

## Left out

- The HTTP client, JSON decoding, timeouts and the asynchronous client: an attempt is one event (request lost, answer lost or unreadable, answer delivered).
- An answer that makes the decoder raise anything but a `ValueError`: every unreadable answer is taken to raise `AmbiguousMint`, but JSON nested too deep raises `RecursionError`, which `_decode` (client.py:95-99) lets through without the secrets.
- SHA-256, HMAC-SHA512, Schnorr, recoverable ECDSA and point arithmetic: arbitrary functions and a group by exponents; the x of a lifted point, not the lift's square root.
- A tweak of zero: taken to be accepted where libsecp256k1 accepts it, as the legacy code's own branch for it says.
- The host of a text with a path, query, user or bracketed address in it, LUD-17 schemes among them: a parameter; a bare host, with or without a port, and a bech32 LNURL are read as the code does.
- Percent-encoding and a query's spelling: a query is a list of pairs.
- UTF-8: a parameter. Text is of Unicode scalar values, so a lone surrogate, which fails to encode, is not modelled.
- Characters beyond ASCII: `lower` and `upper` are ASCII, `\d` and `isdigit` are ASCII digits, and the URL parser's refusal of characters that normalise to a delimiter is not modelled.
- `int` and `float` of a URL's amount: a parameter of which only reading back what `str` writes is asked; CPython's limit on digits is not modelled.
- `parse_mint_fee`'s walk over metadata entries: JSON, then the first entry with a token.
- `build_note_url`, `build_note_info_url_by_hash` and `resolve_note_input`: filters and lookups with no shared invariant.
- `note_info_request`, `mint_address_request`, invoices, LUD-21 verification and the other read-only parsers: an informational GET is its outcome.
- The internal transfer request and minting by invoice: one-line builders over the same parser.
- Exception messages and redacted representations: an exception is its class and the secrets it carries.
- `check_time_claim`, `is_compressed_pubkey` and `_withdraw_amounts`: settled by reading a branch.
- Seeds, random secrets, the Nostr extension and the secrets derived before LUD-25: one-line calls.
- `check_note_certificate`: its verdict is `CertifiedOver` without a spend.
- Whether a cx1's bytes are a point: a parameter. Signing a proof: the signature is whatever verifies.
- Mint fees withheld on a split or merge, and a melt that is pending or fails: the ledger charges nothing and melts at once.
- Several clients sharing one exception or one network object: each run has its own.
