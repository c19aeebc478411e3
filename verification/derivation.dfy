/**
 * The derivation pipeline shared by both copies of `generateWalletFromMnemonic`:
 * recovery phrase to seed, seed to key material along a four-level hardened
 * path `m/44'/<coinType>'/0'/<accountIndex>'`, and key material to a
 * chain-specific key pair chosen by the coin-type tag.
 */
module Derivation {

  import opened Wrappers
  import opened Text
  import opened Hex
  import opened CryptoLib

  /** The coin-type tag of Solana. */
  const SOLANA: string := "501"
  /** The coin-type tag of Ethereum. */
  const ETHEREUM: string := "60"

  /** Why an operation produced no wallet. */
  datatype Failure = InvalidMnemonic | UnsupportedChain | DerivationFailed

  datatype Wallet = Wallet(publicKey: string, privateKey: string, mnemonic: string, path: string)

  /**
   * How an Ethereum private key is rendered: the component prefixes the hex
   * with `0x`, the helper module does not.
   */
  datatype EthKeyStyle = Prefixed | Bare

  predicate IsSupported(pathType: string) {
    pathType == SOLANA || pathType == ETHEREUM
  }

  /** The fixed part of every path for one coin type: purpose 44, the coin type, account 0. */
  function ChainPrefix(pathType: string): string {
    "m/44'/" + pathType + "'/0'/"
  }

  /** The template literal `m/44'/${pathType}'/0'/${accountIndex}'`. */
  function DerivationPath(pathType: string, accountIndex: nat): (p: string)
    ensures ChainPrefix(pathType) <= p
    ensures |p| > |ChainPrefix(pathType)| + 1 && p[|p| - 1] == '\''
    ensures ParseNat(p[|ChainPrefix(pathType)|..|p| - 1]) == Some(accountIndex)
    ensures |p| > |ChainPrefix(pathType)| + 2 ==> p[|ChainPrefix(pathType)|] != '0'
  {
    var p := ChainPrefix(pathType) + NatToString(accountIndex) + "'";
    assert p[|ChainPrefix(pathType)|..|p| - 1] == NatToString(accountIndex);
    ParseNatToString(accountIndex);
    p
  }

  /** Reads the account index back out of a path for the given coin type. */
  function AccountIndexOf(pathType: string, p: string): Option<nat> {
    var pre := ChainPrefix(pathType);
    if pre <= p && |p| > |pre| && p[|p| - 1] == '\'' then ParseNat(p[|pre|..|p| - 1]) else None
  }

  /** The account index can be read back from every path. */
  lemma AccountIndexRoundTrip(pathType: string, accountIndex: nat)
    ensures AccountIndexOf(pathType, DerivationPath(pathType, accountIndex)) == Some(accountIndex)
  {
    var pre := ChainPrefix(pathType);
    var p := DerivationPath(pathType, accountIndex);
    assert p[|pre|..|p| - 1] == NatToString(accountIndex);
    ParseNatToString(accountIndex);
  }

  /** Distinct account indices of one coin type give distinct paths. */
  lemma PathInjective(pathType: string, i: nat, j: nat)
    requires DerivationPath(pathType, i) == DerivationPath(pathType, j)
    ensures i == j
  {
    AccountIndexRoundTrip(pathType, i);
    AccountIndexRoundTrip(pathType, j);
  }

  /** No Solana path is an Ethereum path. */
  lemma ChainsDisjoint(i: nat, j: nat)
    ensures DerivationPath(SOLANA, i) != DerivationPath(ETHEREUM, j)
  {
    assert DerivationPath(SOLANA, i)[6] == '5';
    assert DerivationPath(ETHEREUM, j)[6] == '6';
  }

  /** The first Ethereum wallet's path. */
  lemma EthereumAccountZeroPath()
    ensures DerivationPath(ETHEREUM, 0) == "m/44'/60'/0'/0'"
  {
  }

  /** The key material at `path`: seed the phrase, then derive along the path from the seed's hex. */
  function KeyMaterial(c: Primitives, mnemonic: string, path: string): Option<Bytes> {
    match c.mnemonicToSeed(mnemonic)
    case None => None
    case Some(seed) => c.derivePath(path, Hex.Encode(seed))
  }

  /** `text` is the hex of `key`, behind `0x` when the style asks for it. */
  predicate RendersKey(style: EthKeyStyle, text: string, key: Bytes) {
    match style
    case Prefixed => |text| >= 2 && text[..2] == "0x" && Hex.Decode(text[2..]) == Some(key)
    case Bare => Hex.Decode(text) == Some(key)
  }

  function EthPrivateKey(style: EthKeyStyle, key: Bytes): (text: string)
    ensures RendersKey(style, text, key)
    ensures |text| == 2 * |key| + (if style == Prefixed then 2 else 0)
  {
    DecodeEncode(key);
    match style
    case Prefixed =>
      var text := "0x" + Hex.Encode(key);
      assert text[2..] == Hex.Encode(key);
      text
    case Bare => Hex.Encode(key)
  }

  /**
   * The chain-specific half of `generateWalletFromMnemonic`: returns the
   * (public, private) pair, or the reason there is none.
   */
  function ChainKeys(c: Primitives, style: EthKeyStyle, pathType: string, key: Bytes)
    : (r: Result<(string, string), Failure>)
    ensures r.Success? ==> IsSupported(pathType)
    ensures r.Failure? ==> (r.error == UnsupportedChain <==> !IsSupported(pathType))
    ensures r.Failure? ==> r.error != InvalidMnemonic
    ensures pathType == SOLANA && r.Success? ==>
      && c.signingSecretKey(key).Some?
      && c.solanaPublicKey(c.signingSecretKey(key).value).Some?
      && r.value.0 == c.base58(c.solanaPublicKey(c.signingSecretKey(key).value).value)
      && r.value.1 == c.base58(c.signingSecretKey(key).value)
    ensures pathType == ETHEREUM && r.Success? ==>
      && RendersKey(style, r.value.1, key)
      && c.ethAddress(r.value.1) == Some(r.value.0)
    ensures pathType == SOLANA ==>
      (r.Success? <==> c.signingSecretKey(key).Some? && c.solanaPublicKey(c.signingSecretKey(key).value).Some?)
    ensures pathType == ETHEREUM ==> (r.Success? <==> c.ethAddress(EthPrivateKey(style, key)).Some?)
  {
    if pathType == SOLANA then
      match c.signingSecretKey(key)
      case None => Failure(DerivationFailed)
      case Some(secret) =>
        match c.solanaPublicKey(secret)
        case None => Failure(DerivationFailed)
        case Some(public) => Success((c.base58(public), c.base58(secret)))
    else if pathType == ETHEREUM then
      var privateKey := EthPrivateKey(style, key);
      match c.ethAddress(privateKey)
      case None => Failure(DerivationFailed)
      case Some(address) => Success((address, privateKey))
    else
      Failure(UnsupportedChain)
  }

  /**
   * `generateWalletFromMnemonic(pathType, mnemonic, accountIndex)`: a full
   * record or a reason, never a partial record. The coin-type dispatch runs
   * only after seeding and derivation succeeded, as in the source.
   */
  function FromMnemonic(c: Primitives, style: EthKeyStyle, pathType: string, mnemonic: string, accountIndex: nat)
    : (r: Result<Wallet, Failure>)
    ensures r.Success? ==> r.value.mnemonic == mnemonic
    ensures r.Success? ==> r.value.path == DerivationPath(pathType, accountIndex)
    ensures r.Success? ==> IsSupported(pathType)
    ensures r.Failure? ==> r.error != InvalidMnemonic
    ensures r.Failure? && IsSupported(pathType) ==> r.error == DerivationFailed
    ensures KeyMaterial(c, mnemonic, DerivationPath(pathType, accountIndex)).None? ==> r == Failure(DerivationFailed)
    ensures KeyMaterial(c, mnemonic, DerivationPath(pathType, accountIndex)).Some? && !IsSupported(pathType) ==>
      r == Failure(UnsupportedChain)
    ensures r.Success? ==>
      var key := KeyMaterial(c, mnemonic, DerivationPath(pathType, accountIndex));
      key.Some? && ChainKeys(c, style, pathType, key.value) == Success((r.value.publicKey, r.value.privateKey))
    ensures
      var key := KeyMaterial(c, mnemonic, DerivationPath(pathType, accountIndex));
      r.Success? <==> key.Some? && ChainKeys(c, style, pathType, key.value).Success?
  {
    var path := DerivationPath(pathType, accountIndex);
    match KeyMaterial(c, mnemonic, path)
    case None => Failure(DerivationFailed)
    case Some(key) =>
      match ChainKeys(c, style, pathType, key)
      case Failure(e) => Failure(e)
      case Success(pair) => Success(Wallet(pair.0, pair.1, mnemonic, path))
  }

  /** An Ethereum record's private key is the derived key material in hex, and its public key the address of that key. */
  lemma EthereumRecord(c: Primitives, style: EthKeyStyle, mnemonic: string, accountIndex: nat)
    requires FromMnemonic(c, style, ETHEREUM, mnemonic, accountIndex).Success?
    ensures var w := FromMnemonic(c, style, ETHEREUM, mnemonic, accountIndex).value;
      var key := KeyMaterial(c, mnemonic, DerivationPath(ETHEREUM, accountIndex));
      && key.Some?
      && RendersKey(style, w.privateKey, key.value)
      && |w.privateKey| == 2 * |key.value| + (if style == Prefixed then 2 else 0)
      && c.ethAddress(w.privateKey) == Some(w.publicKey)
  {
  }

  /**
   * How the two copies' records relate: for every tag but Ethereum they
   * coincide, and Ethereum records that both exist share the path and
   * phrase, with private keys that differ by the `0x` prefix. Whether each
   * Ethereum copy succeeds, and its address, are not related, since ethers
   * receives a different string in each.
   */
  lemma CopiesAgree(c: Primitives, pathType: string, mnemonic: string, accountIndex: nat)
    ensures pathType != ETHEREUM ==>
      FromMnemonic(c, Prefixed, pathType, mnemonic, accountIndex) == FromMnemonic(c, Bare, pathType, mnemonic, accountIndex)
    ensures
      var p := FromMnemonic(c, Prefixed, pathType, mnemonic, accountIndex);
      var b := FromMnemonic(c, Bare, pathType, mnemonic, accountIndex);
      pathType == ETHEREUM && p.Success? && b.Success? ==>
        p.value.privateKey == "0x" + b.value.privateKey && p.value.path == b.value.path && p.value.mnemonic == b.value.mnemonic
  {
  }

  /**
   * The phrase a generate operation works with: the trimmed input when it
   * is not blank and passes validation, a freshly generated phrase when
   * the input is blank, and `InvalidMnemonic` otherwise.
   */
  function ResolvePhrase(c: Primitives, input: string, generated: string): (r: Result<string, Failure>)
    ensures r.Failure? <==> !AllWhitespace(input) && !c.validateMnemonic(Trim(input))
    ensures r.Failure? ==> r.error == InvalidMnemonic
    ensures AllWhitespace(input) ==> r == Success(generated)
    ensures !AllWhitespace(input) && r.Success? ==> r.value == Trim(input) && c.validateMnemonic(r.value)
  {
    var phrase := Trim(input);
    if phrase != "" then
      if c.validateMnemonic(phrase) then Success(phrase) else Failure(InvalidMnemonic)
    else
      Success(generated)
  }
}
