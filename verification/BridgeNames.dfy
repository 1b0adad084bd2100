/**
 The file names of the bridge. Stash paths are decimal in the generation, stage
 names carry a 32-digit transaction id. Both are shown to be collision-free, which
 is what lets the rest of the model use structured names.
 */
module BridgeNames {
  import opened BridgeTypes

  const STATE_DIRECTORY: string := "/var/lib/howy/config-bridge"
  const STASH_PREFIX: string := "config-release-n.stash.g"
  const CONFIG_STAGE_PREFIX: string := ".howy-config-bridge-v2-"
  const CONTROL_STAGE_PREFIX: string := ".howy-control-v2-"

  predicate IsDigit(c: char) { '0' <= c <= '9' }

  predicate IsLowerHex(c: char) { IsDigit(c) || 'a' <= c <= 'f' }

  predicate AllDigits(s: string) { forall i :: 0 <= i < |s| ==> IsDigit(s[i]) }

  predicate ValidTransactionId(t: TransactionId) {
    |t| == 32 && forall i :: 0 <= i < |t| ==> IsLowerHex(t[i])
  }

  /** Decimal text without leading zeros. */
  function Decimal(n: nat): (s: string)
    ensures s != [] && AllDigits(s)
  {
    var digit := ['0' + (n % 10) as char];
    if n < 10 then digit else Decimal(n / 10) + digit
  }

  function DecimalValue(s: string): nat
    requires AllDigits(s)
  {
    if s == [] then 0 else 10 * DecimalValue(s[..|s| - 1]) + (s[|s| - 1] - '0') as nat
  }

  lemma {:induction false} DecimalRoundTrip(n: nat)
    ensures DecimalValue(Decimal(n)) == n
  {
    if n >= 10 {
      DecimalRoundTrip(n / 10);
      assert Decimal(n)[..|Decimal(n)| - 1] == Decimal(n / 10);
    }
  }

  /** The digit of weight 10^i. */
  function Digit(n: nat, i: nat): nat { if i == 0 then n % 10 else Digit(n / 10, i - 1) }

  /** Decimal text is read from the right, starts with no zero unless it is one, and is a number's stash path behind
      the fixed prefix. */
  lemma {:induction false} DecimalDigits(n: nat, i: nat)
    requires i < |Decimal(n)|
    ensures Digit(n, i) < 10 && Decimal(n)[|Decimal(n)| - 1 - i] == '0' + Digit(n, i) as char
    ensures n > 0 ==> Decimal(n)[0] != '0'
    ensures StashPath(n) == "/var/lib/howy/config-bridge/config-release-n.stash.g" + Decimal(n)
  {
    if n >= 10 {
      DecimalDigits(n / 10, if i == 0 then 0 else i - 1);
    }
  }

  function StashNamespace(): string { STATE_DIRECTORY + "/" + STASH_PREFIX }

  function StashPath(generation: nat): (path: string)
    ensures ValidStashPath(path)
  {
    var path := StashNamespace() + Decimal(generation);
    assert path[|StashNamespace()|..] == Decimal(generation);
    path
  }

  predicate ValidStashPath(path: string) {
    && StashNamespace() < path
    && AllDigits(path[|StashNamespace()|..])
  }

  /** Stash paths of distinct generations never collide. */
  lemma StashPathInjective(g: nat, h: nat)
    requires StashPath(g) == StashPath(h)
    ensures g == h
  {
    assert StashPath(g)[|StashNamespace()|..] == Decimal(g);
    assert StashPath(h)[|StashNamespace()|..] == Decimal(h);
    DecimalRoundTrip(g);
    DecimalRoundTrip(h);
  }

  function SuffixText(s: StageSuffix): string {
    match s
    case BootstrapSuffix => "bootstrap"
    case RestoreSuffix => "restore"
    case BackupSuffix => "absent-backup"
    case ManifestSuffix => "manifest"
  }

  function Render(n: StageName): string {
    match n
    case ConfigStage(t, s) => CONFIG_STAGE_PREFIX + t + "-" + SuffixText(s)
    case ControlStage(t, s) => CONTROL_STAGE_PREFIX + t + "-" + SuffixText(s)
    case UnknownStage(f) => f
  }

  /** `text` occurs in `name` at some offset: what the orphan scan tests. */
  predicate Contains(name: string, text: string) {
    exists i :: 0 <= i <= |name| && OccursAt(name, text, i)
  }

  predicate OccursAt(name: string, text: string, i: nat) {
    i + |text| <= |name| && name[i..i + |text|] == text
  }

  /** The structured form of "the stage name contains the transaction id". */
  predicate Mentions(n: StageName, t: TransactionId) {
    match n
    case ConfigStage(own, _) => own == t
    case ControlStage(own, _) => own == t
    case UnknownStage(f) => Contains(f, t)
  }

  lemma WindowHasSeparator(prefix: string, own: TransactionId, suffix: string, i: nat)
    requires 0 < |prefix| <= 32 && prefix[|prefix| - 1] == '-'
    requires |own| == 32 && |suffix| < 32
    requires i + 32 <= |prefix| + 33 + |suffix| && i != |prefix|
    ensures var name := prefix + own + "-" + suffix;
            exists k :: i <= k < i + 32 && name[k] == '-'
  {
    var name := prefix + own + "-" + suffix;
    if i < |prefix| {
      assert name[|prefix| - 1] == '-';
    } else {
      assert name[|prefix| + 32] == '-';
    }
  }

  lemma OccursOnlyAsOwn(prefix: string, own: TransactionId, suffix: string, t: TransactionId)
    requires 0 < |prefix| <= 32 && prefix[|prefix| - 1] == '-'
    requires |suffix| < 32
    requires ValidTransactionId(own) && ValidTransactionId(t)
    ensures Contains(prefix + own + "-" + suffix, t) <==> own == t
  {
    var name := prefix + own + "-" + suffix;
    assert OccursAt(name, own, |prefix|);
    if Contains(name, t) {
      var i :| 0 <= i <= |name| && OccursAt(name, t, i);
      if i != |prefix| {
        WindowHasSeparator(prefix, own, suffix, i);
        assert false;
      }
    }
  }

  /** The substring test of the orphan scan accepts one of the bridge's own stages exactly
      when the stage was named by the transaction being recovered. */
  lemma MentionsIsContainment(n: StageName, t: TransactionId)
    requires ValidTransactionId(t)
    requires n.UnknownStage? || ValidTransactionId(n.transactionId)
    ensures Mentions(n, t) <==> Contains(Render(n), t)
  {
    match n
    case ConfigStage(own, s) => OccursOnlyAsOwn(CONFIG_STAGE_PREFIX, own, SuffixText(s), t);
    case ControlStage(own, s) => OccursOnlyAsOwn(CONTROL_STAGE_PREFIX, own, SuffixText(s), t);
    case UnknownStage(_) =>
  }

  /** Two structured stages of one directory never share a file name. */
  lemma StageNamesDistinct(t: TransactionId, s: StageSuffix, u: TransactionId, v: StageSuffix)
    requires ValidTransactionId(t) && ValidTransactionId(u)
    requires Render(ConfigStage(t, s)) == Render(ConfigStage(u, v))
          || Render(ControlStage(t, s)) == Render(ControlStage(u, v))
    ensures t == u && s == v
  {
    if Render(ConfigStage(t, s)) == Render(ConfigStage(u, v)) {
      TailsAgree(CONFIG_STAGE_PREFIX, t, SuffixText(s), u, SuffixText(v));
    } else {
      TailsAgree(CONTROL_STAGE_PREFIX, t, SuffixText(s), u, SuffixText(v));
    }
    SuffixTextInjective(s, v);
  }

  lemma TailsAgree(prefix: string, t: TransactionId, s: string, u: TransactionId, v: string)
    requires |t| == |u| && prefix + t + "-" + s == prefix + u + "-" + v
    ensures t == u && s == v
  {
    var left, right := prefix + t + "-" + s, prefix + u + "-" + v;
    assert left[|prefix|..|prefix| + |t|] == t && right[|prefix|..|prefix| + |t|] == u;
    assert left[|prefix| + |t| + 1..] == s && right[|prefix| + |t| + 1..] == v;
  }

  lemma SuffixTextInjective(s: StageSuffix, v: StageSuffix)
    requires SuffixText(s) == SuffixText(v)
    ensures s == v
  {
    assert SuffixText(BootstrapSuffix)[0] == 'b' && SuffixText(RestoreSuffix)[0] == 'r';
    assert SuffixText(BackupSuffix)[0] == 'a' && SuffixText(ManifestSuffix)[0] == 'm';
  }
}
