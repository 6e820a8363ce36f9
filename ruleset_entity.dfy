/**
 * The SmsRoutingRuleset config entity: its rules, keyed by rule name, and the
 * plugin collection it builds from them on first use.
 */
module RulesetEntity {
  import opened Options
  import opened Tables

  /** One rule as the entity stores it: its name, its plugin type and the rest of its settings. */
  datatype RuleConfig = RuleConfig(name: string, ruleType: string, settings: Table<string, string>)

  /**
   * The rule plugins of a ruleset (SmsRoutingRulePluginCollection). What the model
   * keeps of it is the configuration under each instance id.
   */
  class PluginCollection {
    var configurations: Table<string, RuleConfig>

    constructor(configurations: Table<string, RuleConfig>)
      ensures this.configurations == configurations
    {
      this.configurations := configurations;
    }

    method AddInstanceId(id: string, config: RuleConfig)
      modifies this
      ensures configurations == Put(old(configurations), id, config)
    {
      configurations := Put(configurations, id, config);
    }

    method RemoveInstanceId(id: string)
      modifies this
      ensures configurations == Delete(old(configurations), id)
    {
      configurations := Delete(configurations, id);
    }
  }

  class SmsRoutingRuleset {
    var name: string
    var rules: Table<string, RuleConfig>
    /** null until first asked for, and again after setRules. */
    var pluginCollection: PluginCollection?

    /** The rules form a PHP array, and a collection, once built, holds exactly the rules. */
    predicate Valid()
      reads this, pluginCollection
    {
      UniqueKeys(rules) &&
      (pluginCollection != null ==> pluginCollection.configurations == rules)
    }

    constructor(name: string, rules: Table<string, RuleConfig>)
      requires UniqueKeys(rules)
      ensures Valid()
      ensures this.name == name && this.rules == rules && pluginCollection == null
    {
      this.name := name;
      this.rules := rules;
      pluginCollection := null;
    }

    /** id(): a ruleset is identified by its name. */
    function Id(): (r: string)
      reads this
      ensures r == name
    {
      name
    }

    /** getPluginCollection: built from the rules when unset; otherwise the same instance,
        left as it is. */
    method GetPluginCollection() returns (c: PluginCollection)
      modifies this
      ensures pluginCollection == c
      ensures old(pluginCollection) != null ==>
        c == old(pluginCollection) && c.configurations == old(pluginCollection.configurations)
      ensures old(pluginCollection) == null ==> fresh(c) && c.configurations == rules
      ensures rules == old(rules) && name == old(name)
    {
      if pluginCollection == null {
        pluginCollection := new PluginCollection(rules);
      }
      c := pluginCollection;
    }

    /** addRule: the rule is stored under its name, every other rule stays, and the
        collection (built now if need be) holds the new rules. */
    method AddRule(rule: RuleConfig)
      requires Valid()
      modifies this, pluginCollection
      ensures Valid()
      ensures rules == Put(old(rules), rule.name, rule)
      ensures forall k :: Get(rules, k) == if k == rule.name then Some(rule) else Get(old(rules), k)
      ensures pluginCollection != null
      ensures old(pluginCollection) != null ==> pluginCollection == old(pluginCollection)
      ensures name == old(name)
    {
      ghost var before := rules;
      rules := Put(rules, rule.name, rule);
      PutUnique(before, rule.name, rule);
      forall k ensures Get(rules, k) == if k == rule.name then Some(rule) else Get(before, k) {
        PutGet(before, rule.name, rule, k);
      }
      var c := GetPluginCollection();
      c.AddInstanceId(rule.name, rule);
      PutTwice(before, rule.name, rule);
    }

    /** removeRule: the rule of that name is gone, every other rule stays, and the
        collection (built now if need be) holds the remaining rules. */
    method RemoveRule(ruleName: string)
      requires Valid()
      modifies this, pluginCollection
      ensures Valid()
      ensures rules == Delete(old(rules), ruleName)
      ensures forall k :: Get(rules, k) == if k == ruleName then None else Get(old(rules), k)
      ensures pluginCollection != null
      ensures old(pluginCollection) != null ==> pluginCollection == old(pluginCollection)
      ensures name == old(name)
    {
      ghost var before := rules;
      rules := Delete(rules, ruleName);
      DeleteUnique(before, ruleName);
      forall k ensures Get(rules, k) == if k == ruleName then None else Get(before, k) {
        DeleteGet(before, ruleName, k);
      }
      var c := GetPluginCollection();
      c.RemoveInstanceId(ruleName);
      DeleteTwice(before, ruleName);
    }

    /** setRules: the rules are replaced and the collection dropped, to be rebuilt from
        the new rules when next asked for. */
    method SetRules(rules: Table<string, RuleConfig>)
      requires UniqueKeys(rules)
      modifies this
      ensures Valid()
      ensures this.rules == rules && pluginCollection == null
      ensures name == old(name)
    {
      this.rules := rules;
      pluginCollection := null;
    }
  }
}
