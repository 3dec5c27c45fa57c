/** The versioned rule store behind `ConfigManager`: one live document per
    version, and per version a log of the documents it replaced. Files,
    YAML and timestamps are abstracted away; a saved document is read back
    as it was written. */
module ConfigStore {
  import opened Wrappers
  import opened Rules
  import opened RuleEdits

  datatype Store = Store(live: map<string, Config>, backups: map<string, seq<Config>>)

  datatype StoreError =
    | ConfigNotFound(version: string)
    /** `config['rules']` raises `KeyError`. */
    | RulesMissing
    /** The value under `rules` is not a list where one is needed: `.insert`
        raises on any other value, and a loop over it raises unless it is an
        empty string or mapping. */
    | RulesNotAList

  /** `load_rules`. */
  function Load(s: Store, version: string): (r: Result<Config, StoreError>)
    ensures r.Failure? <==> version !in s.live
    ensures r.Failure? ==> r.error == ConfigNotFound(version)
  {
    if version in s.live then Success(s.live[version]) else Failure(ConfigNotFound(version))
  }

  /** The documents saved away for `version`, oldest first. */
  function Backups(s: Store, version: string): seq<Config> {
    if version in s.backups then s.backups[version] else []
  }

  /** `save_rules`: with `backup` set and a live document present, that
      document is appended to the version's backup log; then `doc` becomes
      the live document. */
  function Save(s: Store, doc: Config, version: string, backup: bool): (r: Store)
    ensures version in r.live && r.live[version] == doc
    ensures r.live.Keys == s.live.Keys + {version}
  {
    var log := if backup && version in s.live then Backups(s, version) + [s.live[version]] else Backups(s, version);
    Store(s.live[version := doc], s.backups[version := log])
  }

  /** A saved document is what the next load of its version returns. */
  lemma SaveLoad(s: Store, doc: Config, version: string, backup: bool)
    ensures Load(Save(s, doc, version, backup), version) == Success(doc)
  {
  }

  /** Saving one version leaves every other version, and its backups, as
      they were. */
  lemma SaveOthers(s: Store, doc: Config, version: string, backup: bool, other: string)
    requires other != version
    ensures Load(Save(s, doc, version, backup), other) == Load(s, other)
    ensures Backups(Save(s, doc, version, backup), other) == Backups(s, other)
  {
  }

  /** The backup log gains exactly the replaced document, and only when a
      backup was asked for and there was a document to replace. */
  lemma SaveBackup(s: Store, doc: Config, version: string, backup: bool)
    ensures var after := Backups(Save(s, doc, version, backup), version);
      if backup && version in s.live
      then after == Backups(s, version) + [Load(s, version).value]
      else after == Backups(s, version)
  {
  }

  /** Backups are never lost or rewritten: every log only grows at its end. */
  lemma SaveKeepsBackups(s: Store, doc: Config, version: string, backup: bool, v: string)
    ensures var before := Backups(s, v);
      var after := Backups(Save(s, doc, version, backup), v);
      |before| <= |after| && after[..|before|] == before
  {
    var before := Backups(s, v);
    var after := Backups(Save(s, doc, version, backup), v);
    if v == version && backup && version in s.live {
      assert after == before + [s.live[version]];
      assert after[..|before|] == before;
    }
  }

  /** `config['rules']` where `add_rule` needs a list: `rules.insert`
      raises on anything else. */
  function RulesOf(c: Config): (r: Result<seq<Rule>, StoreError>)
    ensures r.Success? <==> c.rules.Some? && c.rules.value.RuleList?
    ensures r.Success? ==> WithRules(c, r.value) == c
  {
    match c.rules
    case None => Failure(RulesMissing)
    case Some(NotAList(_)) => Failure(RulesNotAList)
    case Some(RuleList(rules)) => Success(rules)
  }

  /** `config['rules']` where `update_rule`, `delete_rule` and
      `reorder_rules` only loop over it: a list gives its rules, an empty
      string or mapping gives none, and anything else raises. */
  function LoopedRulesOf(c: Config): (r: Result<seq<Rule>, StoreError>)
    ensures r.Success? <==> c.rules.Some? && IteratedRules(c.rules.value).Some?
    ensures c.rules.Some? && c.rules.value.RuleList? ==> r == RulesOf(c)
    ensures r.Success? && !c.rules.value.RuleList? ==> r.value == []
    ensures r.Failure? ==> r.error == RulesMissing || r.error == RulesNotAList
  {
    match c.rules
    case None => Failure(RulesMissing)
    case Some(e) =>
      match IteratedRules(e)
      case None => Failure(RulesNotAList)
      case Some(rules) => Success(rules)
  }

  /** `add_rule`: load, insert, save with a backup. */
  function AddRule(s: Store, version: string, rule: Rule, position: Option<int>): (r: Result<Store, StoreError>)
    ensures r.Success? <==> Load(s, version).Success? && RulesOf(Load(s, version).value).Success?
    ensures r.Success? ==>
      var c := Load(s, version).value;
      r.value == Save(s, WithRules(c, AddToList(RulesOf(c).value, rule, position)), version, true)
  {
    var c :- Load(s, version);
    var rules :- RulesOf(c);
    Success(Save(s, WithRules(c, AddToList(rules, rule, position)), version, true))
  }

  /** `update_rule`: replace the first rule carrying `id` and save; report
      `false` and save nothing when no rule carries it. */
  function UpdateRule(s: Store, version: string, id: string, updated: Rule): (r: Result<(Store, bool), StoreError>)
    ensures r.Success? <==> Load(s, version).Success? && LoopedRulesOf(Load(s, version).value).Success?
    ensures r.Success? ==>
      var c := Load(s, version).value;
      var rules := LoopedRulesOf(c).value;
      && (r.value.1 <==> exists i :: 0 <= i < |rules| && HasId(rules[i], id))
      && (!r.value.1 ==> r.value.0 == s)
      && (r.value.1 ==> r.value.0 == Save(s, WithRules(c, ReplaceFirst(rules, id, updated).value), version, true))
  {
    var c :- Load(s, version);
    var rules :- LoopedRulesOf(c);
    match ReplaceFirst(rules, id, updated)
    case None => Success((s, false))
    case Some(edited) => Success((Save(s, WithRules(c, edited), version, true), true))
  }

  /** `delete_rule`: drop every rule carrying `id` and save; report `false`
      and save nothing when no rule carries it. */
  function DeleteRule(s: Store, version: string, id: string): (r: Result<(Store, bool), StoreError>)
    ensures r.Success? <==> Load(s, version).Success? && LoopedRulesOf(Load(s, version).value).Success?
    ensures r.Success? ==>
      var c := Load(s, version).value;
      var rules := LoopedRulesOf(c).value;
      && (r.value.1 <==> exists i :: 0 <= i < |rules| && HasId(rules[i], id))
      && (!r.value.1 ==> r.value.0 == s)
      && (r.value.1 ==> r.value.0 == Save(s, WithRules(c, RemoveId(rules, id)), version, true))
  {
    var c :- Load(s, version);
    var rules :- LoopedRulesOf(c);
    var kept := RemoveId(rules, id);
    RemoveIdShrinks(rules, id);
    if |kept| < |rules| then Success((Save(s, WithRules(c, kept), version, true), true))
    else Success((s, false))
  }

  /** `reorder_rules`: save the rules the requested ids name, in that order. */
  function ReorderRules(s: Store, version: string, ids: seq<string>): (r: Result<Store, StoreError>)
    ensures r.Success? <==> Load(s, version).Success? && LoopedRulesOf(Load(s, version).value).Success?
    ensures r.Success? ==>
      var c := Load(s, version).value;
      r.value == Save(s, WithRules(c, Reorder(LoopedRulesOf(c).value, ids)), version, true)
  {
    var c :- Load(s, version);
    var rules :- LoopedRulesOf(c);
    Success(Save(s, WithRules(c, Reorder(rules, ids)), version, true))
  }

  /** An empty string or mapping under `rules`: `add_rule` raises on
      `.insert`; `update_rule` and `delete_rule` find no rule and save
      nothing; `reorder_rules` saves an empty list. */
  lemma EmptyValueEdits(s: Store, version: string, rule: Rule, id: string, ids: seq<string>)
    requires version in s.live && s.live[version].rules == Some(NotAList(true))
    ensures AddRule(s, version, rule, None) == Failure(RulesNotAList)
    ensures UpdateRule(s, version, id, rule) == Success((s, false))
    ensures DeleteRule(s, version, id) == Success((s, false))
    ensures ReorderRules(s, version, ids) == Success(Save(s, WithRules(s.live[version], []), version, true))
  {
    ReorderEmptyList(ids);
  }

  /** After a successful edit, loading the version gives the edited list,
      and the previous document is the newest backup. */
  lemma AddRuleSaved(s: Store, version: string, rule: Rule, position: Option<int>)
    requires AddRule(s, version, rule, position).Success?
    ensures var c := Load(s, version).value;
      var after := AddRule(s, version, rule, position).value;
      && Load(after, version) == Success(WithRules(c, AddToList(RulesOf(c).value, rule, position)))
      && Backups(after, version) == Backups(s, version) + [c]
  {
  }
}
