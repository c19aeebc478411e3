/**
 * The extracted wallet helpers: the same generate/add/delete/clear
 * transitions as the component, but appending on generation, rendering
 * Ethereum keys without `0x`, and mirroring state into a key-value store
 * (`localStorage`) under fixed keys. The store is a map from key to the
 * sequence that was written there.
 */
module WalletUtils {

  import opened Wrappers
  import opened Text
  import opened Seqs
  import opened CryptoLib
  import opened Derivation

  const WALLETS_KEY: string := "wallets"
  const MNEMONICS_KEY: string := "mnemonics"
  const PATHS_KEY: string := "paths"
  /** Written by the add helper only, and never removed. */
  const PATH_TYPES_KEY: string := "pathTypes"

  /** A stored value, kept as the sequence that was serialised rather than its JSON text. */
  datatype Stored =
    | WalletList(wallets: seq<Wallet>)
    | StringList(items: seq<string>)
    | NestedStringList(groups: seq<seq<string>>)

  type Storage = map<string, Stored>

  /** The state the helpers read through their arguments and write through the setters. */
  datatype Store = Store(
    mnemonicWords: seq<string>,
    pathTypes: seq<string>,
    wallets: seq<Wallet>,
    visiblePrivateKeys: seq<bool>,
    visiblePhrases: seq<bool>,
    storage: Storage)

  predicate Aligned(s: Store) {
    |s.visiblePrivateKeys| == |s.wallets| && |s.visiblePhrases| == |s.wallets|
  }

  /**
   * `pathTypes[0]` as the path template sees it: on an empty list it is
   * `undefined`, which the template renders as the text "undefined" and
   * which equals neither supported tag.
   */
  function FirstTag(tags: seq<string>): (t: string)
    ensures |tags| == 0 ==> !IsSupported(t)
    ensures |tags| > 0 ==> t == tags[0]
  {
    if |tags| == 0 then "undefined" else tags[0]
  }

  /**
   * `handleGenerateWallet`: an invalid non-blank phrase changes nothing;
   * otherwise the words are set, and a derived wallet is appended (not
   * substituted) and the wallets, words and chain selection are written.
   */
  function GenerateWallet(c: Primitives, s: Store, mnemonicInput: string, generated: string): (s': Store)
    ensures ResolvePhrase(c, mnemonicInput, generated).Failure? ==> s' == s
    ensures
      var phrase := ResolvePhrase(c, mnemonicInput, generated);
      phrase.Success? ==>
        var words := Split(phrase.value, ' ');
        match FromMnemonic(c, Bare, FirstTag(s.pathTypes), phrase.value, |s.wallets|)
        case Success(w) =>
          && s'.wallets == s.wallets + [w]
          && s' == s.(mnemonicWords := words, wallets := s'.wallets,
                      visiblePrivateKeys := s.visiblePrivateKeys + [false],
                      visiblePhrases := s.visiblePhrases + [false],
                      storage := s.storage[WALLETS_KEY := WalletList(s'.wallets)]
                                          [MNEMONICS_KEY := StringList(words)]
                                          [PATHS_KEY := StringList(s.pathTypes)])
        case Failure(_) => s' == s.(mnemonicWords := words)
    ensures |s.pathTypes| == 0 ==> s'.wallets == s.wallets && s'.storage == s.storage
    ensures s'.wallets != s.wallets ==>
      && |s'.wallets| == |s.wallets| + 1
      && s'.wallets[..|s.wallets|] == s.wallets
      && s'.wallets[|s.wallets|].path == DerivationPath(s.pathTypes[0], |s.wallets|)
    ensures s'.pathTypes == s.pathTypes
    ensures Aligned(s) ==> Aligned(s')
  {
    match ResolvePhrase(c, mnemonicInput, generated)
    case Failure(_) => s
    case Success(phrase) =>
      var words := Split(phrase, ' ');
      var shown := s.(mnemonicWords := words);
      match FromMnemonic(c, Bare, FirstTag(s.pathTypes), phrase, |s.wallets|)
      case Failure(_) => shown
      case Success(w) =>
        assert |s.pathTypes| > 0 && w.path == DerivationPath(s.pathTypes[0], |s.wallets|);
        var updated := s.wallets + [w];
        assert updated[..|s.wallets|] == s.wallets;
        shown.(wallets := updated,
               storage := s.storage[WALLETS_KEY := WalletList(updated)]
                                   [MNEMONICS_KEY := StringList(words)]
                                   [PATHS_KEY := StringList(s.pathTypes)],
               visiblePrivateKeys := s.visiblePrivateKeys + [false],
               visiblePhrases := s.visiblePhrases + [false])
  }

  /** The `mnemonicWords` argument of the add helper, which JavaScript lets a caller leave `undefined`. */
  datatype WordsArg = Missing | Given(words: seq<string>)

  /**
   * `handleAddWallet`: refuses only when no word list is passed at all (an
   * array, even an empty one, is truthy); otherwise derives from the joined
   * words at index `wallets.length`, appends, and writes the wallets and the
   * nested pair `[pathTypes, pathTypes]` under "pathTypes".
   */
  function AddWallet(c: Primitives, s: Store, mnemonicWords: WordsArg): (s': Store)
    ensures mnemonicWords.Missing? ==> s' == s
    ensures mnemonicWords.Given? ==>
      match FromMnemonic(c, Bare, FirstTag(s.pathTypes), Join(mnemonicWords.words, ' '), |s.wallets|)
      case Success(w) =>
        s' == s.(wallets := s.wallets + [w],
                 visiblePrivateKeys := s.visiblePrivateKeys + [false],
                 visiblePhrases := s.visiblePhrases + [false],
                 storage := s.storage[WALLETS_KEY := WalletList(s.wallets + [w])]
                                     [PATH_TYPES_KEY := NestedStringList([s.pathTypes, s.pathTypes])])
      case Failure(_) => s' == s
    ensures s'.wallets != s.wallets ==>
      && |s'.wallets| == |s.wallets| + 1
      && s'.wallets[..|s.wallets|] == s.wallets
      && s'.wallets[|s.wallets|].path == DerivationPath(s.pathTypes[0], |s.wallets|)
    ensures Aligned(s) ==> Aligned(s')
  {
    match mnemonicWords
    case Missing => s
    case Given(words) =>
      match FromMnemonic(c, Bare, FirstTag(s.pathTypes), Join(words, ' '), |s.wallets|)
      case Failure(_) => s
      case Success(w) =>
        var updated := s.wallets + [w];
        s.(wallets := updated,
           storage := s.storage[WALLETS_KEY := WalletList(updated)]
                               [PATH_TYPES_KEY := NestedStringList([s.pathTypes, s.pathTypes])],
           visiblePrivateKeys := s.visiblePrivateKeys + [false],
           visiblePhrases := s.visiblePhrases + [false])
  }

  /**
   * `handleClearWallets`: removes the three namespaced keys and empties
   * every list, the word list included.
   */
  function ClearWallets(s: Store): (s': Store)
    ensures s'.wallets == [] && s'.mnemonicWords == [] && s'.pathTypes == []
    ensures s'.visiblePrivateKeys == [] && s'.visiblePhrases == []
    ensures s'.storage.Keys == s.storage.Keys - {WALLETS_KEY, MNEMONICS_KEY, PATHS_KEY}
    ensures forall k :: k in s'.storage ==> s'.storage[k] == s.storage[k]
  {
    Store([], [], [], [], [], s.storage - {WALLETS_KEY, MNEMONICS_KEY, PATHS_KEY})
  }

  /**
   * `handleDeleteWallets(index)`: filters the wallets, the chain selection
   * and both flag lists at the same position, then writes the wallets and
   * the chain selection.
   */
  function DeleteWallets(s: Store, index: int): (s': Store)
    ensures 0 <= index < |s.wallets| ==>
      s'.wallets == s.wallets[..index] + s.wallets[index + 1..] && |s'.wallets| == |s.wallets| - 1
    ensures !(0 <= index < |s.wallets|) ==> s'.wallets == s.wallets
    ensures 0 <= index < |s.pathTypes| ==> s'.pathTypes == s.pathTypes[..index] + s.pathTypes[index + 1..]
    ensures !(0 <= index < |s.pathTypes|) ==> s'.pathTypes == s.pathTypes
    ensures 0 <= index < |s.visiblePrivateKeys| ==>
      s'.visiblePrivateKeys == s.visiblePrivateKeys[..index] + s.visiblePrivateKeys[index + 1..]
    ensures !(0 <= index < |s.visiblePrivateKeys|) ==> s'.visiblePrivateKeys == s.visiblePrivateKeys
    ensures 0 <= index < |s.visiblePhrases| ==>
      s'.visiblePhrases == s.visiblePhrases[..index] + s.visiblePhrases[index + 1..]
    ensures !(0 <= index < |s.visiblePhrases|) ==> s'.visiblePhrases == s.visiblePhrases
    ensures s'.mnemonicWords == s.mnemonicWords
    ensures s'.storage == s.storage[WALLETS_KEY := WalletList(s'.wallets)][PATHS_KEY := StringList(s'.pathTypes)]
    ensures Aligned(s) ==> Aligned(s')
  {
    var wallets := RemoveIndex(s.wallets, index);
    var pathTypes := RemoveIndex(s.pathTypes, index);
    s.(wallets := wallets, pathTypes := pathTypes,
       storage := s.storage[WALLETS_KEY := WalletList(wallets)][PATHS_KEY := StringList(pathTypes)],
       visiblePrivateKeys := RemoveIndex(s.visiblePrivateKeys, index),
       visiblePhrases := RemoveIndex(s.visiblePhrases, index))
  }

  /** The `!mnemonicWords` guard never rejects an array: with any word list, even none, add appends whenever derivation succeeds. */
  lemma AddAcceptsAnyWordList(c: Primitives, s: Store, words: seq<string>)
    requires FromMnemonic(c, Bare, FirstTag(s.pathTypes), Join(words, ' '), |s.wallets|).Success?
    ensures |AddWallet(c, s, Given(words)).wallets| == |s.wallets| + 1
    ensures words == [] ==>
      AddWallet(c, s, Given(words)).wallets[|s.wallets|].mnemonic == ""
  {
  }

  /** The "pathTypes" key that add writes outlives a clear. */
  lemma PathTypesKeySurvivesClear(c: Primitives, s: Store, words: seq<string>)
    requires AddWallet(c, s, Given(words)).wallets != s.wallets
    ensures
      var cleared := ClearWallets(AddWallet(c, s, Given(words)));
      && PATH_TYPES_KEY in cleared.storage
      && cleared.storage[PATH_TYPES_KEY] == NestedStringList([s.pathTypes, s.pathTypes])
  {
  }

  /**
   * The chain selection is filtered by wallet position, so with the usual
   * one-element selection deleting wallet 0 drops the chain, after which
   * neither generate nor add can produce a wallet.
   */
  lemma DeleteFirstDropsChain(c: Primitives, s: Store, tag: string, input: string, generated: string)
    requires s.pathTypes == [tag]
    ensures DeleteWallets(s, 0).pathTypes == []
    ensures DeleteWallets(s, 0).storage[PATHS_KEY] == StringList([])
    ensures
      var d := DeleteWallets(s, 0);
      && AddWallet(c, d, Given(d.mnemonicWords)) == d
      && GenerateWallet(c, d, input, generated).wallets == d.wallets
  {
  }

  /** Deleting any later wallet keeps a one-element chain selection. */
  lemma DeleteLaterKeepsChain(s: Store, tag: string, index: int)
    requires s.pathTypes == [tag] && index != 0
    ensures DeleteWallets(s, index).pathTypes == [tag]
  {
  }

  /**
   * What the helpers keep true: aligned flag lists, and the stored wallets
   * and chain selection, when present, equal to the ones in memory.
   * The stored words are not part of it: a generate whose derivation fails
   * sets the words in memory but writes nothing. Nor is "every wallet has
   * the same phrase": `GenerateAgainMixesPhrases` shows the helpers break it.
   */
  predicate Invariant(s: Store) {
    && Aligned(s)
    && (WALLETS_KEY in s.storage ==> s.storage[WALLETS_KEY] == WalletList(s.wallets))
    && (PATHS_KEY in s.storage ==> s.storage[PATHS_KEY] == StringList(s.pathTypes))
  }

  /** The calls a caller can make. */
  datatype Event =
    | Generate(mnemonicInput: string, generated: string)
    | Add
    | Delete(index: int)
    | Clear

  function Step(c: Primitives, s: Store, e: Event): Store {
    match e
    case Generate(input, generated) => GenerateWallet(c, s, input, generated)
    case Add => AddWallet(c, s, Given(s.mnemonicWords))
    case Delete(i) => DeleteWallets(s, i)
    case Clear => ClearWallets(s)
  }

  function Run(c: Primitives, s: Store, events: seq<Event>): Store
    decreases |events|
  {
    if |events| == 0 then s else Run(c, Step(c, s, events[0]), events[1..])
  }

  lemma GeneratePreservesInvariant(c: Primitives, s: Store, input: string, generated: string)
    requires Invariant(s)
    ensures Invariant(GenerateWallet(c, s, input, generated))
  {
    var s' := GenerateWallet(c, s, input, generated);
    var phrase := ResolvePhrase(c, input, generated);
    if phrase.Success? {
      var words := Split(phrase.value, ' ');
      match FromMnemonic(c, Bare, FirstTag(s.pathTypes), phrase.value, |s.wallets|)
      case Success(w) =>
        StoredMirror(s', s.storage, words);
      case Failure(_) =>
        assert s' == s.(mnemonicWords := words);
    }
  }

  /** A store that has just written its wallets, words and chain selection keeps the invariant. */
  lemma StoredMirror(s: Store, before: Storage, words: seq<string>)
    requires Aligned(s)
    requires s.storage == before[WALLETS_KEY := WalletList(s.wallets)]
                               [MNEMONICS_KEY := StringList(words)]
                               [PATHS_KEY := StringList(s.pathTypes)]
    ensures Invariant(s)
  {
    assert s.storage[WALLETS_KEY] == WalletList(s.wallets);
  }

  lemma AddPreservesInvariant(c: Primitives, s: Store, words: WordsArg)
    requires Invariant(s)
    ensures Invariant(AddWallet(c, s, words))
  {
  }

  lemma DeletePreservesInvariant(s: Store, index: int)
    requires Invariant(s)
    ensures Invariant(DeleteWallets(s, index))
  {
  }

  lemma StepPreservesInvariant(c: Primitives, s: Store, e: Event)
    requires Invariant(s)
    ensures Invariant(Step(c, s, e))
  {
    match e
    case Generate(input, generated) => GeneratePreservesInvariant(c, s, input, generated);
    case Add => AddPreservesInvariant(c, s, Given(s.mnemonicWords));
    case Delete(i) => DeletePreservesInvariant(s, i);
    case Clear =>
  }

  /** Any sequence of calls from an invariant store keeps the invariant. */
  lemma {:induction false} RunPreservesInvariant(c: Primitives, s: Store, events: seq<Event>)
    requires Invariant(s)
    ensures Invariant(Run(c, s, events))
    decreases |events|
  {
    if |events| > 0 {
      StepPreservesInvariant(c, s, events[0]);
      RunPreservesInvariant(c, Step(c, s, events[0]), events[1..]);
    }
  }

  /** After a clear, none of the three keys a later session would reload from is present. */
  lemma ClearLeavesNothingToReload(s: Store)
    ensures var t := ClearWallets(s).storage;
      WALLETS_KEY !in t && MNEMONICS_KEY !in t && PATHS_KEY !in t
  {
  }

  /**
   * Generate appends and is not gated by the wallet count, so two
   * generates from different phrases leave wallets from both in one list,
   * while only the second phrase's words are stored.
   */
  lemma GenerateAgainMixesPhrases(c: Primitives, s: Store, p1: string, p2: string, generated: string)
    requires s.wallets == [] && s.pathTypes == [SOLANA]
    requires p1 != p2
    requires ResolvePhrase(c, p1, generated) == Success(p1)
    requires ResolvePhrase(c, p2, generated) == Success(p2)
    requires FromMnemonic(c, Bare, SOLANA, p1, 0).Success?
    requires FromMnemonic(c, Bare, SOLANA, p2, 1).Success?
    ensures
      var s2 := GenerateWallet(c, GenerateWallet(c, s, p1, generated), p2, generated);
      && |s2.wallets| == 2
      && s2.wallets[0].mnemonic == p1
      && s2.wallets[1].mnemonic == p2
      && s2.wallets[0].mnemonic != s2.wallets[1].mnemonic
      && s2.storage[MNEMONICS_KEY] == StringList(Split(p2, ' '))
  {
    var s1 := GenerateWallet(c, s, p1, generated);
    GenerateAppends(c, s, p1, generated);
    GenerateAppends(c, s1, p2, generated);
    MixedList(s1.wallets, GenerateWallet(c, s1, p2, generated).wallets,
              FromMnemonic(c, Bare, SOLANA, p1, 0).value, FromMnemonic(c, Bare, SOLANA, p2, 1).value, p1, p2);
  }

  /** Appending a wallet of another phrase to a one-wallet list gives a list with two phrases. */
  lemma MixedList(first: seq<Wallet>, second: seq<Wallet>, w1: Wallet, w2: Wallet, p1: string, p2: string)
    requires first == [w1] && second == first + [w2]
    requires w1.mnemonic == p1 && w2.mnemonic == p2 && p1 != p2
    ensures |second| == 2 && second[0].mnemonic == p1 && second[1].mnemonic == p2
    ensures second[0].mnemonic != second[1].mnemonic
  {
  }

  /** Two generates in a row, whatever their phrases, keep the helper invariant, so it cannot rule out a mixed list. */
  lemma GenerateTwiceKeepsInvariant(c: Primitives, s: Store, p1: string, p2: string, generated: string)
    requires Invariant(s)
    ensures Invariant(GenerateWallet(c, GenerateWallet(c, s, p1, generated), p2, generated))
  {
    GeneratePreservesInvariant(c, s, p1, generated);
    GeneratePreservesInvariant(c, GenerateWallet(c, s, p1, generated), p2, generated);
  }

  /** One successful generate from an accepted phrase appends its wallet and stores that phrase's words. */
  lemma GenerateAppends(c: Primitives, s: Store, phrase: string, generated: string)
    requires ResolvePhrase(c, phrase, generated) == Success(phrase)
    requires FromMnemonic(c, Bare, FirstTag(s.pathTypes), phrase, |s.wallets|).Success?
    ensures
      var s' := GenerateWallet(c, s, phrase, generated);
      && s'.wallets == s.wallets + [FromMnemonic(c, Bare, FirstTag(s.pathTypes), phrase, |s.wallets|).value]
      && s'.pathTypes == s.pathTypes
      && s'.storage[MNEMONICS_KEY] == StringList(Split(phrase, ' '))
  {
  }

  /** Blank input with Ethereum selected: the generated phrase is shown, and a wallet, if derived, is the only one and sits at account 0. */
  lemma BlankPhraseScenario(c: Primitives, s: Store, generated: string)
    requires s.wallets == [] && s.pathTypes == [ETHEREUM]
    ensures GenerateWallet(c, s, "", generated).mnemonicWords == Split(generated, ' ')
    ensures
      var s' := GenerateWallet(c, s, "", generated);
      s'.wallets != [] ==>
        && |s'.wallets| == 1
        && s'.wallets[0].path == DerivationPath(ETHEREUM, 0)
        && s'.wallets[0].mnemonic == generated
        && s'.storage[MNEMONICS_KEY] == StringList(Split(generated, ' '))
  {
    assert AllWhitespace("");
    assert ResolvePhrase(c, "", generated) == Success(generated);
    assert FirstTag(s.pathTypes) == ETHEREUM;
  }

  /** A phrase the validator rejects leaves the store, storage included, exactly as it was. */
  lemma InvalidPhraseScenario(c: Primitives, s: Store, generated: string)
    requires !c.validateMnemonic("foo bar baz")
    ensures GenerateWallet(c, s, "foo bar baz", generated) == s
  {
    assert !IsJsWhitespace("foo bar baz"[0]);
    assert Trim("foo bar baz") == "foo bar baz";
    assert ResolvePhrase(c, "foo bar baz", generated).Failure?;
  }
}
