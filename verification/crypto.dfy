/**
 * The foreign cryptographic libraries, as opaque functions supplied by the
 * caller. Nothing about their internals is assumed: every property proved
 * in this model holds for every choice of these functions. A field that
 * returns an `Option` yields `None` exactly when the library call throws.
 */
module CryptoLib {

  import opened Wrappers
  import opened Hex

  datatype Primitives = Primitives(
    /** bip39 `validateMnemonic`: wordlist and checksum check. */
    validateMnemonic: string -> bool,
    /** bip39 `mnemonicToSeedSync`. */
    mnemonicToSeed: string -> Option<Bytes>,
    /** ed25519-hd-key `derivePath(path, hexSeed).key`. */
    derivePath: (string, string) -> Option<Bytes>,
    /** tweetnacl `sign.keyPair.fromSeed(seed).secretKey`. */
    signingSecretKey: Bytes -> Option<Bytes>,
    /** The public-key bytes of `Keypair.fromSecretKey(secretKey)` from @solana/web3.js. */
    solanaPublicKey: Bytes -> Option<Bytes>,
    /** bs58 `encode`, also what `PublicKey.toBase58` renders. */
    base58: Bytes -> string,
    /** `new ethers.Wallet(privateKey).address`. */
    ethAddress: string -> Option<string>)
}
