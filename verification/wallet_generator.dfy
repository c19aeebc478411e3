/**
 * The state transitions of the wallet-generator component: generate the
 * first wallet, add one, delete one, clear all, and the per-wallet
 * visibility toggles, over an immutable snapshot of the component's state.
 * Each handler reads the snapshot it was rendered with and produces the
 * next one, as React's state setters do within a single event.
 */
module WalletGenerator {

  import opened Wrappers
  import opened Text
  import opened Seqs
  import opened CryptoLib
  import opened Derivation

  /** The word shown in each of the twelve phrase slots before any phrase exists. */
  const PLACEHOLDER: string := " "

  const PHRASE_SLOTS: nat := 12

  function Placeholders(): (ws: seq<string>)
    ensures |ws| == PHRASE_SLOTS
    ensures forall i :: 0 <= i < |ws| ==> ws[i] == PLACEHOLDER
  {
    seq(PHRASE_SLOTS, _ => PLACEHOLDER)
  }

  /** The component's state apart from the grid/list layout switch. */
  datatype View = View(
    mnemonicWords: seq<string>,
    pathTypes: seq<string>,
    wallets: seq<Wallet>,
    showMnemonic: bool,
    mnemonicInput: string,
    visiblePrivateKeys: seq<bool>,
    visiblePhrases: seq<bool>,
    acknowledgedLoss: bool,
    acknowledgedWritten: bool)

  /** The state on mount. */
  function Initial(): View {
    View(Placeholders(), [], [], false, "", [], [], false, false)
  }

  /** Both visibility lists have one entry per wallet. */
  predicate Aligned(s: View) {
    |s.visiblePrivateKeys| == |s.wallets| && |s.visiblePhrases| == |s.wallets|
  }

  /** The phrase new wallets are derived from: the displayed words joined back with spaces. */
  function Phrase(s: View): string {
    Join(s.mnemonicWords, ' ')
  }

  /** The add handler refuses while the phrase slots still show the placeholder. */
  predicate ShowsPlaceholder(s: View) {
    |s.mnemonicWords| > 0 && s.mnemonicWords[0] == PLACEHOLDER
  }

  /** `togglePrivateKeyVisibility(index)`. */
  function TogglePrivateKeyVisibility(s: View, index: int): (s': View)
    ensures s' == s.(visiblePrivateKeys := s'.visiblePrivateKeys)
    ensures |s'.visiblePrivateKeys| == |s.visiblePrivateKeys|
    ensures forall i :: 0 <= i < |s.visiblePrivateKeys| && i != index ==>
      s'.visiblePrivateKeys[i] == s.visiblePrivateKeys[i]
    ensures 0 <= index < |s.visiblePrivateKeys| ==>
      s'.visiblePrivateKeys[index] == !s.visiblePrivateKeys[index]
  {
    s.(visiblePrivateKeys := Toggle(s.visiblePrivateKeys, index))
  }

  /** `togglePhraseVisibility(index)`. */
  function TogglePhraseVisibility(s: View, index: int): (s': View)
    ensures s' == s.(visiblePhrases := s'.visiblePhrases)
    ensures |s'.visiblePhrases| == |s.visiblePhrases|
    ensures forall i :: 0 <= i < |s.visiblePhrases| && i != index ==>
      s'.visiblePhrases[i] == s.visiblePhrases[i]
    ensures 0 <= index < |s.visiblePhrases| ==>
      s'.visiblePhrases[index] == !s.visiblePhrases[index]
  {
    s.(visiblePhrases := Toggle(s.visiblePhrases, index))
  }

  /**
   * `handleDeleteWallet(index)`: drops position `index` from the wallets and
   * from both flag lists, keeping the order of the rest. The chain selection
   * is left alone.
   */
  function DeleteWallet(s: View, index: int): (s': View)
    ensures s' == s.(wallets := s'.wallets, visiblePrivateKeys := s'.visiblePrivateKeys,
                     visiblePhrases := s'.visiblePhrases)
    ensures 0 <= index < |s.wallets| ==>
      s'.wallets == s.wallets[..index] + s.wallets[index + 1..] && |s'.wallets| == |s.wallets| - 1
    ensures !(0 <= index < |s.wallets|) ==> s'.wallets == s.wallets
    ensures 0 <= index < |s.visiblePrivateKeys| ==>
      s'.visiblePrivateKeys == s.visiblePrivateKeys[..index] + s.visiblePrivateKeys[index + 1..]
    ensures !(0 <= index < |s.visiblePrivateKeys|) ==> s'.visiblePrivateKeys == s.visiblePrivateKeys
    ensures 0 <= index < |s.visiblePhrases| ==>
      s'.visiblePhrases == s.visiblePhrases[..index] + s.visiblePhrases[index + 1..]
    ensures !(0 <= index < |s.visiblePhrases|) ==> s'.visiblePhrases == s.visiblePhrases
    ensures Aligned(s) ==> Aligned(s')
  {
    s.(wallets := RemoveIndex(s.wallets, index),
       visiblePrivateKeys := RemoveIndex(s.visiblePrivateKeys, index),
       visiblePhrases := RemoveIndex(s.visiblePhrases, index))
  }

  /**
   * `handleClearWallets`: no wallets, no flags, no chain selection, the
   * placeholder phrase, an empty input and both acknowledgements unticked.
   */
  function ClearWallets(s: View): (s': View)
    ensures s'.wallets == [] && s'.visiblePrivateKeys == [] && s'.visiblePhrases == []
    ensures s'.pathTypes == []
    ensures |s'.mnemonicWords| == PHRASE_SLOTS && ShowsPlaceholder(s')
    ensures forall i :: 0 <= i < |s'.mnemonicWords| ==> s'.mnemonicWords[i] == PLACEHOLDER
    ensures !s'.acknowledgedLoss && !s'.acknowledgedWritten && !s'.showMnemonic
    ensures s'.mnemonicInput == ""
  {
    s.(wallets := [], mnemonicWords := Placeholders(), pathTypes := [], showMnemonic := false,
       mnemonicInput := "", acknowledgedLoss := false, acknowledgedWritten := false,
       visiblePrivateKeys := [], visiblePhrases := [])
  }

  /** Clearing returns the component to exactly the state it mounted with. */
  lemma ClearIsInitial(s: View)
    ensures ClearWallets(s) == Initial()
  {
  }

  /**
   * `handleGenerateWallet`, with `generated` standing for the phrase
   * `generateMnemonic()` would return. The words are displayed before the
   * chain check, and the one new wallet is derived at the old wallet count
   * but replaces the whole list.
   */
  function GenerateWallet(c: Primitives, s: View, generated: string): (s': View)
    ensures ResolvePhrase(c, s.mnemonicInput, generated).Failure? ==> s' == s
    ensures
      var phrase := ResolvePhrase(c, s.mnemonicInput, generated);
      phrase.Success? && |s.pathTypes| == 0 ==> s' == s.(mnemonicWords := Split(phrase.value, ' '))
    ensures
      var phrase := ResolvePhrase(c, s.mnemonicInput, generated);
      phrase.Success? && |s.pathTypes| > 0 ==>
        && s'.mnemonicWords == Split(phrase.value, ' ')
        && s'.mnemonicInput == ""
        && match FromMnemonic(c, Prefixed, s.pathTypes[0], phrase.value, |s.wallets|)
           case Success(w) =>
             s' == s.(mnemonicWords := s'.mnemonicWords, mnemonicInput := "", wallets := [w],
                      visiblePrivateKeys := [false], visiblePhrases := [false])
           case Failure(_) =>
             s' == s.(mnemonicWords := s'.mnemonicWords, mnemonicInput := "")
    ensures s'.wallets == s.wallets || |s'.wallets| == 1
    ensures s'.wallets != s.wallets ==> Aligned(s')
    ensures Aligned(s) ==> Aligned(s')
  {
    match ResolvePhrase(c, s.mnemonicInput, generated)
    case Failure(_) => s
    case Success(phrase) =>
      var shown := s.(mnemonicWords := Split(phrase, ' '));
      if |s.pathTypes| == 0 then shown
      else
        var next :=
          match FromMnemonic(c, Prefixed, s.pathTypes[0], phrase, |s.wallets|)
          case Success(w) => shown.(wallets := [w], visiblePrivateKeys := [false], visiblePhrases := [false])
          case Failure(_) => shown;
        next.(mnemonicInput := "")
  }

  /** A successful generation after a phrase has been shown derives its single wallet at the old count, not at account 0. */
  lemma GenerateIndexIsOldCount(c: Primitives, s: View, generated: string)
    requires |s.wallets| > 0
    requires |GenerateWallet(c, s, generated).wallets| == 1
    requires GenerateWallet(c, s, generated).wallets != s.wallets
    ensures |s.pathTypes| > 0
    ensures GenerateWallet(c, s, generated).wallets[0].path == DerivationPath(s.pathTypes[0], |s.wallets|)
    ensures GenerateWallet(c, s, generated).wallets[0].path != DerivationPath(s.pathTypes[0], 0)
  {
    var w := GenerateWallet(c, s, generated).wallets[0];
    if w.path == DerivationPath(s.pathTypes[0], 0) {
      PathInjective(s.pathTypes[0], |s.wallets|, 0);
    }
  }

  /**
   * `handleAddWallet`: refuses while the placeholder is shown, when there is
   * no wallet yet, or when no chain is selected; otherwise derives from the
   * joined words at index `wallets.length` and appends the wallet and one
   * `false` to each flag list.
   */
  function AddWallet(c: Primitives, s: View): (s': View)
    ensures ShowsPlaceholder(s) || |s.wallets| == 0 || |s.pathTypes| == 0 ==> s' == s
    ensures
      !ShowsPlaceholder(s) && |s.wallets| > 0 && |s.pathTypes| > 0 ==>
        match FromMnemonic(c, Prefixed, s.pathTypes[0], Phrase(s), |s.wallets|)
        case Success(w) =>
          s' == s.(wallets := s.wallets + [w], visiblePrivateKeys := s.visiblePrivateKeys + [false],
                   visiblePhrases := s.visiblePhrases + [false])
        case Failure(_) => s' == s
    ensures s'.wallets != s.wallets ==>
      && |s'.wallets| == |s.wallets| + 1
      && s'.wallets[..|s.wallets|] == s.wallets
      && s'.wallets[|s.wallets|].mnemonic == Phrase(s)
      && s'.wallets[|s.wallets|].path == DerivationPath(s.pathTypes[0], |s.wallets|)
    ensures Aligned(s) ==> Aligned(s')
  {
    if ShowsPlaceholder(s) || |s.wallets| == 0 then s
    else if |s.pathTypes| == 0 then s
    else
      match FromMnemonic(c, Prefixed, s.pathTypes[0], Phrase(s), |s.wallets|)
      case Success(w) =>
        s.(wallets := s.wallets + [w], visiblePrivateKeys := s.visiblePrivateKeys + [false],
           visiblePhrases := s.visiblePhrases + [false])
      case Failure(_) => s
  }

  /**
   * Because the account index is the current count, deleting any wallet
   * other than the newest and then adding one derives the newest wallet's
   * path again.
   */
  lemma PathRepeatsAfterDelete(c: Primitives, s: View, i: int, j: int)
    requires |s.pathTypes| > 0
    requires 0 <= i < |s.wallets| && 0 <= j < |s.wallets| && i != j
    requires s.wallets[j].path == DerivationPath(s.pathTypes[0], |s.wallets| - 1)
    ensures
      var d := DeleteWallet(s, i);
      var a := AddWallet(c, d);
      && s.wallets[j] in d.wallets
      && (a.wallets != d.wallets ==> a.wallets[|a.wallets| - 1].path == s.wallets[j].path)
  {
  }

  /**
   * When the newest wallet was itself derived at its index from the current
   * phrase, that add produces the very same wallet a second time.
   */
  lemma WalletRepeatsAfterDelete(c: Primitives, s: View, i: int, j: int)
    requires |s.pathTypes| > 0 && !ShowsPlaceholder(s)
    requires 0 <= i < |s.wallets| && 0 <= j < |s.wallets| && i != j
    requires FromMnemonic(c, Prefixed, s.pathTypes[0], Phrase(s), |s.wallets| - 1) == Success(s.wallets[j])
    ensures
      var d := DeleteWallet(s, i);
      && s.wallets[j] in d.wallets
      && AddWallet(c, d).wallets == d.wallets + [s.wallets[j]]
  {
  }

  /**
   * The state every reachable view keeps: aligned flag lists, every wallet
   * derived from the displayed phrase, every wallet on the selected chain,
   * and a real phrase displayed whenever a wallet exists.
   */
  predicate Invariant(s: View) {
    && Aligned(s)
    && (forall i :: 0 <= i < |s.wallets| ==> s.wallets[i].mnemonic == Phrase(s))
    && (|s.wallets| > 0 ==> |s.pathTypes| > 0 && !ShowsPlaceholder(s) && |s.mnemonicWords| > 0)
    && (|s.wallets| > 0 ==> forall i :: 0 <= i < |s.wallets| ==> ChainPrefix(s.pathTypes[0]) <= s.wallets[i].path)
  }

  /** The user actions the rendered component offers. */
  datatype Event =
    | SelectChain(tag: string)
    | EnterPhrase(text: string)
    | Generate(generated: string)
    | Add
    | Delete(index: int)
    | Clear
    | TogglePrivateKey(index: int)

  /** Whether the control for `e` is on screen in state `s`. */
  predicate Enabled(s: View, e: Event) {
    match e
    case SelectChain(tag) => |s.wallets| == 0 && |s.pathTypes| == 0 && IsSupported(tag)
    case EnterPhrase(_) => |s.wallets| == 0 && |s.pathTypes| > 0
    case Generate(_) => |s.wallets| == 0 && |s.pathTypes| > 0
    case Add => |s.wallets| > 0
    case Delete(i) => 0 <= i < |s.wallets|
    case Clear => |s.wallets| > 0
    case TogglePrivateKey(i) => 0 <= i < |s.wallets|
  }

  /** One user action; an action whose control is not on screen changes nothing. */
  function Step(c: Primitives, s: View, e: Event): View {
    if !Enabled(s, e) then s
    else match e
      case SelectChain(tag) => s.(pathTypes := [tag])
      case EnterPhrase(text) => s.(mnemonicInput := text)
      case Generate(generated) => GenerateWallet(c, s, generated)
      case Add => AddWallet(c, s)
      case Delete(i) => DeleteWallet(s, i)
      case Clear => ClearWallets(s)
      case TogglePrivateKey(i) => TogglePrivateKeyVisibility(s, i)
  }

  function Run(c: Primitives, s: View, events: seq<Event>): View
    decreases |events|
  {
    if |events| == 0 then s else Run(c, Step(c, s, events[0]), events[1..])
  }

  lemma InitialInvariant()
    ensures Invariant(Initial())
  {
  }

  lemma GeneratePreservesInvariant(c: Primitives, s: View, generated: string)
    requires Invariant(s) && |s.wallets| == 0
    ensures Invariant(GenerateWallet(c, s, generated))
  {
    var s' := GenerateWallet(c, s, generated);
    var phrase := ResolvePhrase(c, s.mnemonicInput, generated);
    if s'.wallets != s.wallets {
      var r := FromMnemonic(c, Prefixed, s.pathTypes[0], phrase.value, |s.wallets|);
      assert phrase.Success? && r.Success? && s'.wallets == [r.value];
      SingleWalletInvariant(s', phrase.value);
    }
  }

  /** A view holding one wallet derived from `phrase`, with the split phrase displayed, keeps the invariant. */
  lemma SingleWalletInvariant(s: View, phrase: string)
    requires |s.wallets| == 1 && Aligned(s) && |s.pathTypes| > 0
    requires s.mnemonicWords == Split(phrase, ' ')
    requires s.wallets[0].mnemonic == phrase
    requires s.wallets[0].path == DerivationPath(s.pathTypes[0], 0)
    ensures Invariant(s)
  {
    JoinSplit(phrase, ' ');
    assert ' ' !in s.mnemonicWords[0];
    assert PLACEHOLDER[0] == ' ';
  }

  lemma AddPreservesInvariant(c: Primitives, s: View)
    requires Invariant(s)
    ensures Invariant(AddWallet(c, s))
  {
  }

  lemma DeletePreservesInvariant(s: View, index: int)
    requires Invariant(s)
    ensures Invariant(DeleteWallet(s, index))
  {
  }

  /** Every user action, enabled or not, keeps the invariant. */
  lemma StepPreservesInvariant(c: Primitives, s: View, e: Event)
    requires Invariant(s)
    ensures Invariant(Step(c, s, e))
  {
    if Enabled(s, e) {
      match e
      case SelectChain(_) =>
      case EnterPhrase(_) =>
      case Generate(g) => GeneratePreservesInvariant(c, s, g);
      case Add => AddPreservesInvariant(c, s);
      case Delete(i) => DeletePreservesInvariant(s, i);
      case Clear => ClearIsInitial(s); InitialInvariant();
      case TogglePrivateKey(i) => TogglesPreserveInvariant(s, i);
    }
  }

  /** Every sequence of user actions from any invariant state keeps the invariant. */
  lemma {:induction false} RunPreservesInvariant(c: Primitives, s: View, events: seq<Event>)
    requires Invariant(s)
    ensures Invariant(Run(c, s, events))
    decreases |events|
  {
    if |events| > 0 {
      StepPreservesInvariant(c, s, events[0]);
      RunPreservesInvariant(c, Step(c, s, events[0]), events[1..]);
    }
  }

  /** Every state the component reaches from mount keeps the invariant. */
  lemma ReachableInvariant(c: Primitives, events: seq<Event>)
    ensures Invariant(Run(c, Initial(), events))
  {
    InitialInvariant();
    RunPreservesInvariant(c, Initial(), events);
  }

  /** Toggling either flag keeps the invariant. */
  lemma TogglesPreserveInvariant(s: View, index: int)
    requires Invariant(s)
    ensures Invariant(TogglePrivateKeyVisibility(s, index))
    ensures Invariant(TogglePhraseVisibility(s, index))
  {
  }
}
