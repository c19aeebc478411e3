# VVallet wallet store and derivation rules, in Dafny

This project models the behaviour of the VVallet browser wallet
generator. That behaviour has two parts.

- **Derivation and chain dispatch.** `generateWalletFromMnemonic` turns a
  recovery phrase into a seed. It derives key material along the four-level,
  all-hardened path `m/44'/<coinType>'/0'/<accountIndex>'`, then branches on
  the coin-type tag: `"501"` builds a Solana key pair, `"60"` an Ethereum key
  pair, and any other tag gives no wallet. Any exception also gives no wallet.
- **The wallet store.** This is a state machine over a wallet list and two
  index-aligned visibility-flag lists. Its operations are:
  - generate-first
  - add-one, at account index = current count
  - delete-at-index
  - clear-all
  - per-index visibility toggles

Both parts exist twice in the source: inline in the React component and as
extracted helpers. The helpers also mirror state into `localStorage`.

## Modules

| file | module | what it holds |
|---|---|---|
| `wrappers.dfy` | `Wrappers` | `Option` (null / thrown) and `Result` (value or reason) |
| `text.dfy` | `Text` | `trim`, `split(" ")`, `join(" ")`, decimal rendering of a number, and their round trips |
| `hex.dfy` | `Hex` | bytes and `Buffer.toString("hex")`, with its decoder and round trips |
| `seqs.dfy` | `Seqs` | `filter((_, i) => i !== index)` and the flag-flipping `map` |
| `crypto.dfy` | `CryptoLib` | the cryptographic libraries as a record of opaque functions |
| `derivation.dfy` | `Derivation` | path builder, chain dispatch, `generateWalletFromMnemonic`, phrase resolution |
| `wallet_generator.dfy` | `WalletGenerator` | the component's state and handlers, its user actions, and its reachable-state invariant |
| `wallet_utils.dfy` | `WalletUtils` | the helper module's handlers, the `localStorage` map, and its invariant |

The crypto libraries are modelled as a record of function-valued fields
(`CryptoLib.Primitives`). The libraries are BIP-39 validation and seeding,
SLIP-0010 Ed25519 path derivation, tweetnacl and Solana key construction,
base58, and the ethers address. Every theorem holds for every choice of
these functions. A field returning `Option` yields `None` exactly when that
call would throw. The random phrase from `generateMnemonic()` is a parameter
(`generated`).

### Where the two copies differ

The component (components/WalletGenerator.tsx) and the helper module
(utils/wallet.ts) implement the same operations differently. The model
keeps each copy as written.

- Replace vs. append. On generate, the component replaces the list with
  `[wallet]`, and its comment at line 195 calls this deliberate. The helper
  module appends to the list.
- Ethereum key prefix. The component prefixes the Ethereum private key with
  `0x`, and its comment at line 148 gives ethers.js as the reason. The
  helper module stores bare hex.
- Storage writes.
  - The component writes nothing to storage.
  - The helper generate writes `wallets`, `mnemonics` and `paths`.
  - The helper add writes only `wallets` and a fourth key, `pathTypes`,
    whose value is the nested pair `[pathTypes, pathTypes]`.
  - The helper delete writes `wallets` and `paths`.
  - The helper clear removes `wallets`, `mnemonics` and `paths`, and leaves
    `pathTypes` in place.
- Filtering the chain selection. The component's delete leaves the chain
  selection alone: its comment at lines 103-104 treats the selection as
  the one chosen chain, not one entry per wallet. The helper delete filters
  the selection by the wallet's position.
- Unsupported tags. Both copies give an unsupported tag its own message
  (components/WalletGenerator.tsx:153, utils/wallet.ts:84). They dispatch
  on the tag only after seeding and derivation. So an unsupported tag whose
  path makes derivation throw gets the generic failure message instead.
  `Derivation.FromMnemonic` keeps that order.

### Quirks the model states as lemmas

- After a delete, add can derive an existing path, and even an identical
  wallet: `WalletGenerator.PathRepeatsAfterDelete` and
  `WalletGenerator.WalletRepeatsAfterDelete`.
- The component's generate derives at the old wallet count while replacing
  the list: `WalletGenerator.GenerateIndexIsOldCount`. The generate control
  renders only while `wallets.length === 0` (components/WalletGenerator.tsx:232,
  239), so from the UI the old count is always 0. The lemma is about the
  handler alone.
- The helper delete of wallet 0 drops a one-element chain selection. After
  that, neither generate nor add can produce a wallet:
  `WalletUtils.DeleteFirstDropsChain`.
- The helper's `!mnemonicWords` guard accepts every array, including `[]`:
  `WalletUtils.AddAcceptsAnyWordList`.
- The `pathTypes` key survives clear:
  `WalletUtils.PathTypesKeySurvivesClear`.
- The helper generate appends and is not gated by the wallet count
  (utils/wallet.ts:42-43). So two generates from different phrases leave
  wallets of both phrases in one list, and `mnemonics` stores only the
  second phrase's words: `WalletUtils.GenerateAgainMixesPhrases`. The
  helper invariant still holds afterwards:
  `WalletUtils.GenerateTwiceKeepsInvariant`. That is
  why `WalletUtils.Invariant`, unlike the component's invariant, does not
  say every wallet carries the displayed phrase.
- `WalletUtils.Invariant` also leaves out the stored `mnemonics`. A generate
  whose derivation fails still sets the words in memory (utils/wallet.ts:34-35),
  but it writes storage only on success (utils/wallet.ts:42-47).

## Model

| member | source | states |
|---|---|---|
| `Derivation.FromMnemonic` | components/WalletGenerator.tsx:125-168 | A wallet exists only for tag "501" or "60". It carries the input phrase unchanged and the path `m/44'/<tag>'/0'/<index>'`. Its key pair is what the chain builder makes from the key material at that path. A wallet is produced exactly when the key material exists and the chain builder succeeds on it. A throw while seeding or deriving, or a failed key construction for a supported tag, gives `DerivationFailed`. An unsupported tag after a good derivation gives `UnsupportedChain`. It is never a partial record. |
| `Derivation.ChainKeys` | components/WalletGenerator.tsx:138-155 | The dispatch succeeds only for the two tags, and `UnsupportedChain` is returned exactly for the others. For Solana it succeeds exactly when the secret key and the public key can both be built; for Ethereum, exactly when ethers accepts the rendered private key. Solana gives base58 of the Ed25519 public key and of the full secret key. Ethereum gives the hex of the key material as private key, and the address ethers computes from that string as public key. |
| `Derivation.EthereumRecord` | components/WalletGenerator.tsx:145-151 | An Ethereum record's private key is hex that decodes back to the derived key material. In the component's style it is behind `0x` (length 2 + 2·n); in the helper's it is bare (length 2·n). Its public key is the address of exactly that private-key string. |
| `Derivation.CopiesAgree` | utils/wallet.ts:76-82 | The two copies of `generateWalletFromMnemonic` give the same result for every tag except Ethereum. When both Ethereum records exist, the component's private key is `0x` + the helper's, with the same path and phrase. |
| `Derivation.DerivationPath` | components/WalletGenerator.tsx:132 | The path starts with `m/44'/<tag>'/0'/`, ends in `'`, and the text between them is the plain decimal account index: it parses back to the index and has no leading zero. |
| `Derivation.AccountIndexRoundTrip` | components/WalletGenerator.tsx:132 | The account index can be read back from every path built for a tag. |
| `Derivation.PathInjective` | components/WalletGenerator.tsx:132 | Distinct account indices give distinct paths for the same tag. |
| `Derivation.ChainsDisjoint` | components/WalletGenerator.tsx:132 | No Solana path equals an Ethereum path. |
| `Derivation.EthereumAccountZeroPath` | components/WalletGenerator.tsx:132 | The first Ethereum wallet's path is `m/44'/60'/0'/0'`. |
| `Derivation.EthPrivateKey` | components/WalletGenerator.tsx:147-148 | The rendered key decodes back to the key bytes. It has the `0x` prefix only in the component's style, and its length is twice the byte count plus any prefix. |
| `Derivation.ResolvePhrase` | components/WalletGenerator.tsx:171-184 | Returns `InvalidMnemonic` exactly when the input is not all whitespace and its trimmed form fails validation. Blank input yields the generated phrase. Otherwise the result is the validated trimmed input. |
| `Text.Trim` | components/WalletGenerator.tsx:171 | The result has no whitespace at either end. It is a contiguous slice of the input, and everything before and after that slice is whitespace, so only whitespace is removed. It is empty exactly when the input is all ECMAScript whitespace. |
| `Text.TrimIdempotent` | components/WalletGenerator.tsx:171 | Trimming a trimmed phrase changes nothing. |
| `Text.Split` | components/WalletGenerator.tsx:178 | Splitting gives at least one piece, and no piece contains the separator. |
| `Text.Join` | components/WalletGenerator.tsx:215 | The reference definition of `join(" ")` behind `JoinSplit` and `SplitJoin`. No words join to `""`, the first word is always a prefix of the result, and two or more words always contain the separator. |
| `Text.JoinSplit` | components/WalletGenerator.tsx:215 | Joining the split words with a space restores the phrase exactly. So the phrase add derives from is the one generate validated. |
| `Text.SplitJoin` | utils/wallet.ts:34 | Splitting a join of non-empty lists of separator-free words recovers the words. |
| `Text.NatToString` | components/WalletGenerator.tsx:132 | The rendering of the account index is a non-empty run of decimal digits with no leading zero. |
| `Text.ParseNatToString` | components/WalletGenerator.tsx:132 | Parsing the rendered index gives the index back. |
| `Text.NatToStringInjective` | components/WalletGenerator.tsx:132 | Distinct indices render differently. |
| `Hex.Encode` | components/WalletGenerator.tsx:147 | The hex rendering has two lower-case hex digits per byte. |
| `Hex.DecodeEncode` | components/WalletGenerator.tsx:147 | Decoding the hex of some bytes gives those bytes. |
| `Hex.EncodeDecode` | utils/wallet.ts:78 | Every accepted hex string is the encoding of what it decodes to. |
| `Hex.EncodeInjective` | utils/wallet.ts:78 | Distinct key materials render as distinct private keys. |
| `Seqs.RemoveIndex` | components/WalletGenerator.tsx:102 | Filtering out position `index` removes exactly that element when it is in range, keeping the rest in order. Out of range, nothing changes. |
| `Seqs.RemoveIndexShifts` | components/WalletGenerator.tsx:107 | After a removal, earlier positions keep their element and later ones move down by one. |
| `Seqs.RemoveIndexMultiset` | components/WalletGenerator.tsx:102 | The removal takes exactly one copy of the removed element out of the contents. |
| `Seqs.Toggle` | components/WalletGenerator.tsx:92 | Toggling keeps the length, flips the flag at `index`, and leaves every other flag unchanged. |
| `Seqs.ToggleIsUpdate` | components/WalletGenerator.tsx:98 | Toggling is the one-entry update `flags[index := !flags[index]]` in range, and the identity out of range. |
| `Seqs.ToggleInvolution` | components/WalletGenerator.tsx:92 | Toggling the same index twice restores the flags. |
| `WalletGenerator.TogglePrivateKeyVisibility` | components/WalletGenerator.tsx:90-94 | Only the private-key flag at `index` flips. Its length and every other part of the state stay the same. |
| `WalletGenerator.TogglePhraseVisibility` | components/WalletGenerator.tsx:96-100 | Only the phrase flag at `index` flips. Its length and every other part of the state stay the same. |
| `WalletGenerator.DeleteWallet` | components/WalletGenerator.tsx:101-110 | Position `index` is removed from the wallets and both flag lists, in order, and each length drops by one in range. The chain selection and everything else are untouched, and aligned lists stay aligned. |
| `WalletGenerator.ClearWallets` | components/WalletGenerator.tsx:113-124 | Clear leaves no wallets, flags or chain, twelve slots each holding the `" "` placeholder, an empty input, the phrase hidden, and both acknowledgements false. |
| `WalletGenerator.ClearIsInitial` | components/WalletGenerator.tsx:47-57 | Clearing gives exactly the state the component mounts with. |
| `WalletGenerator.GenerateWallet` | components/WalletGenerator.tsx:170-200 | An invalid non-blank phrase changes nothing. With no chain selected, only the words change. Otherwise the words are set and the input is cleared. A successful derivation at index `wallets.length` replaces the list with `[wallet]` and the flags with `[false]`; a failed one leaves wallets and flags as they were. |
| `WalletGenerator.GenerateIndexIsOldCount` | components/WalletGenerator.tsx:189-195 | When wallets already exist, generate's single wallet is derived at the old count, not at account 0. |
| `WalletGenerator.AddWallet` | components/WalletGenerator.tsx:203-225 | Add does nothing while the placeholder shows, with no wallets, or with no chain. Otherwise it derives from the joined words at index `wallets.length`. On success it appends the wallet and a `false` to each flag list, keeping the old wallets as a prefix; on failure nothing changes. |
| `WalletGenerator.PathRepeatsAfterDelete` | components/WalletGenerator.tsx:213-217 | Delete a wallet other than the one at path index n−1, then add. The new wallet's path equals that surviving wallet's path. |
| `WalletGenerator.WalletRepeatsAfterDelete` | components/WalletGenerator.tsx:213-222 | If that wallet was derived from the current phrase, the add appends an identical copy of it. |
| `WalletGenerator.GeneratePreservesInvariant` | components/WalletGenerator.tsx:170-200 | From an invariant state with no wallets (the only state that renders the generate button), generate keeps the invariant. The invariant says flags are aligned, every wallet's phrase is the displayed words joined, every path is on the selected chain, and a real phrase is shown. |
| `WalletGenerator.AddPreservesInvariant` | components/WalletGenerator.tsx:203-225 | Add keeps the invariant. |
| `WalletGenerator.DeletePreservesInvariant` | components/WalletGenerator.tsx:101-110 | Delete keeps the invariant. |
| `WalletGenerator.TogglesPreserveInvariant` | components/WalletGenerator.tsx:90-100 | Both toggles keep the invariant. |
| `WalletGenerator.StepPreservesInvariant` | components/WalletGenerator.tsx:232-546 | Every user action keeps the invariant, whether or not its control is on screen. |
| `WalletGenerator.RunPreservesInvariant` | components/WalletGenerator.tsx:232-546 | Every sequence of on-screen user actions from an invariant state keeps the invariant. The actions are chain choice, phrase entry, generate, add, delete, clear and the private-key toggle. |
| `WalletGenerator.ReachableInvariant` | components/WalletGenerator.tsx:47-57 | Every state reached from mount satisfies the invariant. |
| `WalletUtils.FirstTag` | utils/wallet.ts:38 | `pathTypes[0]` of an empty selection renders as a tag that is neither supported chain. |
| `WalletUtils.GenerateWallet` | utils/wallet.ts:11-53 | Invalid non-blank input changes neither state nor storage. Otherwise the words are set, and on success the wallet is appended (not substituted). `wallets`, `mnemonics` and `paths` are written with the new list, the words and the chain selection, and one `false` is appended to each flag list. With no chain selected, nothing is added or stored. |
| `WalletUtils.AddWallet` | utils/wallet.ts:102-135 | Add refuses only a missing word list. On success it appends one wallet derived at index `wallets.length` from the joined words, and a `false` to each flag list. It writes `wallets` and, under `pathTypes`, the nested `[pathTypes, pathTypes]`. On failure nothing changes. |
| `WalletUtils.ClearWallets` | utils/wallet.ts:137-156 | Clear removes exactly the keys `wallets`, `mnemonics` and `paths`, keeps every other stored entry, and empties all in-memory lists. |
| `WalletUtils.DeleteWallets` | utils/wallet.ts:158-181 | Delete filters the wallets, the chain selection and both flag lists at the same index, keeping order. A list the index is out of range for is unchanged. It writes the filtered wallets under `wallets` and the filtered selection under `paths`. |
| `WalletUtils.AddAcceptsAnyWordList` | utils/wallet.ts:114-123 | Any word list passes the guard, even an empty one, which derives from the empty phrase. Add appends whenever derivation succeeds. |
| `WalletUtils.PathTypesKeySurvivesClear` | utils/wallet.ts:126-129 | After a successful add, a clear still leaves `pathTypes` stored with the nested pair. |
| `WalletUtils.DeleteFirstDropsChain` | utils/wallet.ts:171-176 | With a one-element chain selection, deleting index 0 empties the selection and stores `[]` under `paths`. After that, add and generate add nothing. |
| `WalletUtils.DeleteLaterKeepsChain` | utils/wallet.ts:171 | Deleting any other index keeps a one-element selection. |
| `WalletUtils.GeneratePreservesInvariant` | utils/wallet.ts:11-53 | Generate keeps the flags aligned and the stored `wallets` and `paths` equal to memory, on success and on failure alike. |
| `WalletUtils.DeletePreservesInvariant` | utils/wallet.ts:158-181 | Delete keeps that invariant, writing exactly the filtered lists. |
| `WalletUtils.StepPreservesInvariant` | utils/wallet.ts:11-181 | Every helper call keeps the flags aligned. It also keeps the stored `wallets` and `paths`, when present, equal to the in-memory lists. |
| `WalletUtils.RunPreservesInvariant` | utils/wallet.ts:11-181 | Every sequence of helper calls keeps that invariant. |
| `WalletUtils.GenerateAgainMixesPhrases` | utils/wallet.ts:23-47 | Two successful generates from different valid phrases leave two wallets with different phrases, and only the second phrase's words stored under `mnemonics`. |
| `WalletUtils.GenerateTwiceKeepsInvariant` | utils/wallet.ts:23-47 | Any two generates in a row keep the helper invariant, so the invariant allows the mixed list above. |
| `WalletUtils.BlankPhraseScenario` | utils/wallet.ts:23-47 | Start with no wallets, Ethereum selected and blank input. The generated phrase's words are shown. Any wallet produced is the only one, derived at account 0, carries the generated phrase, and its words are stored under `mnemonics`. |
| `WalletUtils.InvalidPhraseScenario` | utils/wallet.ts:25-29 | If the validator rejects "foo bar baz", generating from it leaves the store, storage included, unchanged. |
| `WalletUtils.ClearLeavesNothingToReload` | utils/wallet.ts:146-148 | After clear, none of `wallets`, `mnemonics` or `paths` is stored. |

## Left out

- Rendering: JSX, animation, layout, the grid/list switch, and key masking. These are presentation only. The rendered conditions for each control appear only as `WalletGenerator.Enabled`.
- Some UI-only setters are not user actions in the model: the phrase-reveal toggle (`showMnemonic`) and the two acknowledgement checkboxes. They change no wallet data. Clear's effect on them is modelled.
- `togglePhraseVisibility` is modelled but is not a user action. No control in the markup calls it.
- Toasts, `console.error` and clipboard writes have no effect on state.
- Cryptographic internals (bip39, ed25519-hd-key, tweetnacl, @solana/web3.js, bs58, ethers) are foreign code. They are opaque function parameters. So the key-format properties are not modelled: base58 lengths, 64-byte secret keys, and the checksummed `0x…` 40-hex address. They depend on those libraries.
- Randomness in `generateMnemonic()` is a parameter.
- The JSON format of stored values is not modelled. A stored value is the sequence written.
- The commented-out rehydration effect (components/WalletGenerator.tsx:69-82) is dead code. Its key set is modelled only by `WalletUtils.ClearLeavesNothingToReload`.
- theme-button.tsx, NavBar.tsx and page.tsx are theme and layout with no state logic.
- `localStorage.setItem` is assumed never to throw. In the code the in-memory setters run before the writes (utils/wallet.ts:44-49, 127-131, 173-178). A `QuotaExceededError` or `SecurityError` would leave the wallet list updated, the flag lists not, and storage partly written. That breaks the alignment the invariants state.
- Multi-tab storage races are out of scope. Storage is one map owned by one session.
- The notification that distinguishes an unsupported chain from a failed derivation is only a toast. The reason is kept in `Derivation.FromMnemonic`'s result, and the stores discard it, as the code does when it returns `null`.
- `Text.NatToString` renders only non-negative integers. Every account index in the code is an array length.
