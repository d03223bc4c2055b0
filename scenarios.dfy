/**
 * The worked examples that accompany `reconcile_countries_by_code` and
 * `build_map_dict_by_code`, stated over the model.
 */
module Scenarios {
  import opened Wrappers
  import opened Text
  import opened OrderedDict
  import opened Loaders
  import opened Reconcile
  import opened MapByCode

  /** One more step of the outer loop, for a new plot code that resolves. */
  lemma StepMatched(converter: Dict<string, string>, plot: Dict<string, string>, gdpCountries: Dict<string, Row>,
                    matched: Dict<string, string>, unmatched: set<string>, entry: (string, string),
                    code: string, key: string)
    requires Reconciliation(converter, plot, gdpCountries) == (matched, unmatched)
    requires entry.0 == code && Resolve(converter, gdpCountries, code) == Some(key)
    requires code !in Keys(matched)
    ensures Reconciliation(converter, plot + [entry], gdpCountries) == (matched + [(code, key)], unmatched)
  {
    assert (plot + [entry])[..|plot|] == plot;
  }

  /** One more step of the outer loop, for a plot code that does not resolve. */
  lemma StepUnmatched(converter: Dict<string, string>, plot: Dict<string, string>, gdpCountries: Dict<string, Row>,
                      matched: Dict<string, string>, unmatched: set<string>, entry: (string, string), code: string)
    requires Reconciliation(converter, plot, gdpCountries) == (matched, unmatched)
    requires entry.0 == code && Resolve(converter, gdpCountries, code) == None
    ensures Reconciliation(converter, plot + [entry], gdpCountries) == (matched, unmatched + {code})
  {
    assert (plot + [entry])[..|plot|] == plot;
  }

  /** Extending a prefix of a dict by its next entry gives the next prefix. */
  lemma PrefixStep(plot: Dict<string, string>, k: nat)
    requires k < |plot|
    ensures plot[..k] + [plot[k]] == plot[..k + 1]
  {
  }

  /**
   * Example 0's tables: lower-case plot codes, an upper-case converter and a
   * GDP table that has no Puerto Rico. Country names and GDP rows are left
   * open.
   */
  predicate ZeroTables(converter: Dict<string, string>, plot: Dict<string, string>, gdp: Dict<string, Row>) {
    && |converter| == 3
    && converter[0] == ("NO", "NOR") && converter[1] == ("PR", "PRI") && converter[2] == ("US", "USA")
    && Keys(plot) == ["no", "pr", "us"]
    && Keys(gdp) == ["USA", "NOR"]
  }

  lemma ZeroCases()
    ensures Lower("no") == "no" && Lower("pr") == "pr" && Lower("us") == "us"
    ensures Lower("NO") == "no" && Lower("PR") == "pr" && Lower("US") == "us"
    ensures Upper("NOR") == "NOR" && Upper("PRI") == "PRI" && Upper("USA") == "USA"
  {
  }

  lemma ZeroResolvesNorway(converter: Dict<string, string>, plot: Dict<string, string>, gdp: Dict<string, Row>)
    requires ZeroTables(converter, plot, gdp)
    ensures Resolve(converter, gdp, "no") == Some("NOR")
  {
    ZeroCases();
    assert gdp[0].0 == Keys(gdp)[0] && gdp[1].0 == Keys(gdp)[1];
    assert ConverterHitFrom(converter, "no", 0) == Some(0);
    assert GdpKeyFrom(gdp, "NOR", 1) == Some(1);
    assert GdpKeyFrom(gdp, "NOR", 0) == Some(1);
  }

  lemma ZeroResolvesPuertoRico(converter: Dict<string, string>, plot: Dict<string, string>, gdp: Dict<string, Row>)
    requires ZeroTables(converter, plot, gdp)
    ensures Resolve(converter, gdp, "pr") == None
  {
    ZeroCases();
    assert gdp[0].0 == Keys(gdp)[0] && gdp[1].0 == Keys(gdp)[1];
    assert ConverterHitFrom(converter, "pr", 1) == Some(1);
    assert ConverterHitFrom(converter, "pr", 0) == Some(1);
    assert GdpKeyFrom(gdp, "PRI", 2) == None;
    assert GdpKeyFrom(gdp, "PRI", 1) == None;
    assert GdpKeyFrom(gdp, "PRI", 0) == None;
  }

  lemma ZeroResolvesUnitedStates(converter: Dict<string, string>, plot: Dict<string, string>, gdp: Dict<string, Row>)
    requires ZeroTables(converter, plot, gdp)
    ensures Resolve(converter, gdp, "us") == Some("USA")
  {
    ZeroCases();
    assert gdp[0].0 == Keys(gdp)[0];
    assert ConverterHitFrom(converter, "us", 2) == Some(2);
    assert ConverterHitFrom(converter, "us", 1) == Some(2);
    assert ConverterHitFrom(converter, "us", 0) == Some(2);
    assert GdpKeyFrom(gdp, "USA", 0) == Some(0);
  }

  /** Example 0's matched prefix after its last step. */
  lemma ZeroPrefixes()
    ensures [("no", "NOR")] + [("us", "USA")] == [("no", "NOR"), ("us", "USA")]
    ensures "us" !in Keys([("no", "NOR")])
    ensures {} + {"pr"} == {"pr"}
  {
  }

  lemma ZeroStepOne(converter: Dict<string, string>, plot: Dict<string, string>, gdp: Dict<string, Row>)
    requires ZeroTables(converter, plot, gdp)
    ensures Reconciliation(converter, plot[..1], gdp) == ([("no", "NOR")], {})
  {
    assert Reconciliation(converter, plot[..0], gdp) == ([], {}) by {
      assert plot[..0] == [];
    }
    assert plot[0].0 == "no" by {
      assert plot[0].0 == Keys(plot)[0];
    }
    PrefixStep(plot, 0);
    ZeroResolvesNorway(converter, plot, gdp);
    StepMatched(converter, plot[..0], gdp, [], {}, plot[0], "no", "NOR");
  }

  lemma ZeroStepTwo(converter: Dict<string, string>, plot: Dict<string, string>, gdp: Dict<string, Row>)
    requires ZeroTables(converter, plot, gdp)
    ensures Reconciliation(converter, plot[..2], gdp) == ([("no", "NOR")], {"pr"})
  {
    ZeroStepOne(converter, plot, gdp);
    assert plot[1].0 == "pr" by {
      assert plot[1].0 == Keys(plot)[1];
    }
    PrefixStep(plot, 1);
    ZeroResolvesPuertoRico(converter, plot, gdp);
    ZeroPrefixes();
    StepUnmatched(converter, plot[..1], gdp, [("no", "NOR")], {}, plot[1], "pr");
  }

  /**
   * Example 0: lower-case plot codes, an upper-case converter and a GDP
   * table without Puerto Rico. Whatever the country names and the GDP rows,
   * Norway and the United States match and Puerto Rico is unmatched.
   */
  lemma ExampleZero(converter: Dict<string, string>, plot: Dict<string, string>, gdp: Dict<string, Row>)
    requires ZeroTables(converter, plot, gdp)
    ensures Reconciliation(converter, plot, gdp) == ([("no", "NOR"), ("us", "USA")], {"pr"})
  {
    ZeroStepTwo(converter, plot, gdp);
    assert plot[2].0 == "us" by {
      assert plot[2].0 == Keys(plot)[2];
    }
    PrefixStep(plot, 2);
    ZeroResolvesUnitedStates(converter, plot, gdp);
    ZeroPrefixes();
    StepMatched(converter, plot[..2], gdp, [("no", "NOR")], {"pr"}, plot[2], "us", "USA");
    assert plot[..3] == plot;
  }

  /**
   * Example 1's tables: the converter of Example 0, the plot codes in
   * another order and a GDP table that holds all three countries. Country
   * names and GDP rows are left open.
   */
  predicate OneTables(converter: Dict<string, string>, plot: Dict<string, string>, gdp: Dict<string, Row>) {
    && |converter| == 3
    && converter[0] == ("NO", "NOR") && converter[1] == ("PR", "PRI") && converter[2] == ("US", "USA")
    && Keys(plot) == ["pr", "no", "us"]
    && Keys(gdp) == ["USA", "PRI", "NOR"]
  }

  lemma OneResolvesPuertoRico(converter: Dict<string, string>, plot: Dict<string, string>, gdp: Dict<string, Row>)
    requires OneTables(converter, plot, gdp)
    ensures Resolve(converter, gdp, "pr") == Some("PRI")
  {
    ZeroCases();
    assert gdp[0].0 == Keys(gdp)[0] && gdp[1].0 == Keys(gdp)[1];
    assert ConverterHitFrom(converter, "pr", 1) == Some(1);
    assert ConverterHitFrom(converter, "pr", 0) == Some(1);
    assert GdpKeyFrom(gdp, "PRI", 1) == Some(1);
    assert GdpKeyFrom(gdp, "PRI", 0) == Some(1);
  }

  lemma OneResolvesNorway(converter: Dict<string, string>, plot: Dict<string, string>, gdp: Dict<string, Row>)
    requires OneTables(converter, plot, gdp)
    ensures Resolve(converter, gdp, "no") == Some("NOR")
  {
    ZeroCases();
    assert gdp[0].0 == Keys(gdp)[0] && gdp[1].0 == Keys(gdp)[1] && gdp[2].0 == Keys(gdp)[2];
    assert ConverterHitFrom(converter, "no", 0) == Some(0);
    assert GdpKeyFrom(gdp, "NOR", 2) == Some(2);
    assert GdpKeyFrom(gdp, "NOR", 1) == Some(2);
    assert GdpKeyFrom(gdp, "NOR", 0) == Some(2);
  }

  lemma OneResolvesUnitedStates(converter: Dict<string, string>, plot: Dict<string, string>, gdp: Dict<string, Row>)
    requires OneTables(converter, plot, gdp)
    ensures Resolve(converter, gdp, "us") == Some("USA")
  {
    ZeroCases();
    assert gdp[0].0 == Keys(gdp)[0];
    assert ConverterHitFrom(converter, "us", 2) == Some(2);
    assert ConverterHitFrom(converter, "us", 1) == Some(2);
    assert ConverterHitFrom(converter, "us", 0) == Some(2);
    assert GdpKeyFrom(gdp, "USA", 0) == Some(0);
  }

  /** Example 1's matched prefixes, one entry longer at each step, each adding a new plot code. */
  lemma OnePrefixes()
    ensures [("pr", "PRI")] + [("no", "NOR")] == [("pr", "PRI"), ("no", "NOR")]
    ensures [("pr", "PRI"), ("no", "NOR")] + [("us", "USA")] == [("pr", "PRI"), ("no", "NOR"), ("us", "USA")]
    ensures "no" !in Keys([("pr", "PRI")])
    ensures "us" !in Keys([("pr", "PRI"), ("no", "NOR")])
  {
  }

  lemma OneStepOne(converter: Dict<string, string>, plot: Dict<string, string>, gdp: Dict<string, Row>)
    requires OneTables(converter, plot, gdp)
    ensures Reconciliation(converter, plot[..1], gdp) == ([("pr", "PRI")], {})
  {
    assert Reconciliation(converter, plot[..0], gdp) == ([], {}) by {
      assert plot[..0] == [];
    }
    assert plot[0].0 == "pr" by {
      assert plot[0].0 == Keys(plot)[0];
    }
    PrefixStep(plot, 0);
    OneResolvesPuertoRico(converter, plot, gdp);
    StepMatched(converter, plot[..0], gdp, [], {}, plot[0], "pr", "PRI");
  }

  lemma OneStepTwo(converter: Dict<string, string>, plot: Dict<string, string>, gdp: Dict<string, Row>)
    requires OneTables(converter, plot, gdp)
    ensures Reconciliation(converter, plot[..2], gdp) == ([("pr", "PRI"), ("no", "NOR")], {})
  {
    OneStepOne(converter, plot, gdp);
    assert plot[1].0 == "no" by {
      assert plot[1].0 == Keys(plot)[1];
    }
    PrefixStep(plot, 1);
    OneResolvesNorway(converter, plot, gdp);
    OnePrefixes();
    StepMatched(converter, plot[..1], gdp, [("pr", "PRI")], {}, plot[1], "no", "NOR");
  }

  /**
   * Example 1: with all three countries in the GDP table, every plot code
   * matches and nothing is unmatched, in the order of the plot codes.
   */
  lemma ExampleOne(converter: Dict<string, string>, plot: Dict<string, string>, gdp: Dict<string, Row>)
    requires OneTables(converter, plot, gdp)
    ensures Reconciliation(converter, plot, gdp) == ([("pr", "PRI"), ("no", "NOR"), ("us", "USA")], {})
  {
    OneStepTwo(converter, plot, gdp);
    assert plot[2].0 == "us" by {
      assert plot[2].0 == Keys(plot)[2];
    }
    PrefixStep(plot, 2);
    OneResolvesUnitedStates(converter, plot, gdp);
    OnePrefixes();
    StepMatched(converter, plot[..2], gdp, [("pr", "PRI"), ("no", "NOR")], {}, plot[2], "us", "USA");
    assert plot[..3] == plot;
  }

  /**
   * Example 3: whatever the converter holds, an empty GDP table leaves every
   * plot code unmatched.
   */
  lemma ExampleThree(converter: Dict<string, string>)
    ensures Reconciliation(converter, [("jp", "Japan"), ("cn", "China"), ("ru", "Russian Federation")], [])
      == ([], {"jp", "cn", "ru"})
  {
    var plot: Dict<string, string> := [("jp", "Japan"), ("cn", "China"), ("ru", "Russian Federation")];
    EmptyGdpTable(converter, plot);
    assert Keys(plot) == ["jp", "cn", "ru"];
    assert (set p | p in Keys(plot)) == {"jp", "cn", "ru"};
  }

  /**
   * Only the first converter entry whose plot code matches is followed: a
   * dead entry for "us" ahead of a live one leaves "us" unmatched, whatever
   * the GDP table holds besides "USA" and "NOR".
   */
  lemma FirstHitShadowsLater(gdp: Dict<string, Row>)
    requires Keys(gdp) == ["USA", "NOR"]
    ensures Resolve([("us", "XXX"), ("US", "USA")], gdp, "us") == None
  {
    assert Lower("us") == "us" && Upper("XXX") == "XXX";
    assert gdp[0].0 == Keys(gdp)[0] && gdp[1].0 == Keys(gdp)[1];
    assert Upper("USA")[0] == 'U' && Upper("NOR")[0] == 'N';
    assert ConverterHitFrom([("us", "XXX"), ("US", "USA")], "us", 0) == Some(0);
    assert GdpKeyFrom(gdp, "XXX", 2) == None;
    assert GdpKeyFrom(gdp, "XXX", 1) == None;
    assert GdpKeyFrom(gdp, "XXX", 0) == None;
  }

  /**
   * Example 4's tables: a converter from lower-case plot codes to
   * mixed-case data codes, upper-case plot codes and mixed-case GDP keys.
   * Country names and GDP rows are left open.
   */
  predicate MixedTables(converter: Dict<string, string>, plot: Dict<string, string>, gdp: Dict<string, Row>) {
    && |converter| == 4
    && converter[0] == ("c1", "Wx") && converter[1] == ("c2", "Qr")
    && converter[2] == ("c3", "kL") && converter[3] == ("c4", "eF")
    && Keys(plot) == ["C4", "C3", "C2", "C1", "C5"]
    && Keys(gdp) == ["qR", "Kl", "WX", "ef"]
  }

  lemma MixedCases()
    ensures Lower("C1") == "c1" && Lower("C2") == "c2" && Lower("C3") == "c3" && Lower("C4") == "c4"
    ensures Lower("C5") == "c5"
    ensures Lower("c1") == "c1" && Lower("c2") == "c2" && Lower("c3") == "c3" && Lower("c4") == "c4"
    ensures Upper("Wx") == "WX" && Upper("Qr") == "QR" && Upper("kL") == "KL" && Upper("eF") == "EF"
    ensures Upper("qR") == "QR" && Upper("Kl") == "KL" && Upper("WX") == "WX" && Upper("ef") == "EF"
  {
  }

  lemma MixedResolvesC4(converter: Dict<string, string>, plot: Dict<string, string>, gdp: Dict<string, Row>)
    requires MixedTables(converter, plot, gdp)
    ensures Resolve(converter, gdp, "C4") == Some("ef")
  {
    MixedCases();
    assert gdp[0].0 == Keys(gdp)[0] && gdp[1].0 == Keys(gdp)[1] && gdp[2].0 == Keys(gdp)[2] && gdp[3].0 == Keys(gdp)[3];
    assert ConverterHitFrom(converter, "c4", 3) == Some(3);
    assert ConverterHitFrom(converter, "c4", 2) == Some(3);
    assert ConverterHitFrom(converter, "c4", 1) == Some(3);
    assert ConverterHitFrom(converter, "c4", 0) == Some(3);
    assert GdpKeyFrom(gdp, "EF", 3) == Some(3);
    assert GdpKeyFrom(gdp, "EF", 2) == Some(3);
    assert GdpKeyFrom(gdp, "EF", 1) == Some(3);
    assert GdpKeyFrom(gdp, "EF", 0) == Some(3);
  }

  lemma MixedResolvesC3(converter: Dict<string, string>, plot: Dict<string, string>, gdp: Dict<string, Row>)
    requires MixedTables(converter, plot, gdp)
    ensures Resolve(converter, gdp, "C3") == Some("Kl")
  {
    MixedCases();
    assert gdp[0].0 == Keys(gdp)[0] && gdp[1].0 == Keys(gdp)[1] && gdp[2].0 == Keys(gdp)[2] && gdp[3].0 == Keys(gdp)[3];
    assert ConverterHitFrom(converter, "c3", 2) == Some(2);
    assert ConverterHitFrom(converter, "c3", 1) == Some(2);
    assert ConverterHitFrom(converter, "c3", 0) == Some(2);
    assert GdpKeyFrom(gdp, "KL", 1) == Some(1);
    assert GdpKeyFrom(gdp, "KL", 0) == Some(1);
  }

  lemma MixedResolvesC2(converter: Dict<string, string>, plot: Dict<string, string>, gdp: Dict<string, Row>)
    requires MixedTables(converter, plot, gdp)
    ensures Resolve(converter, gdp, "C2") == Some("qR")
  {
    MixedCases();
    assert gdp[0].0 == Keys(gdp)[0] && gdp[1].0 == Keys(gdp)[1] && gdp[2].0 == Keys(gdp)[2] && gdp[3].0 == Keys(gdp)[3];
    assert ConverterHitFrom(converter, "c2", 1) == Some(1);
    assert ConverterHitFrom(converter, "c2", 0) == Some(1);
    assert GdpKeyFrom(gdp, "QR", 0) == Some(0);
  }

  lemma MixedResolvesC1(converter: Dict<string, string>, plot: Dict<string, string>, gdp: Dict<string, Row>)
    requires MixedTables(converter, plot, gdp)
    ensures Resolve(converter, gdp, "C1") == Some("WX")
  {
    MixedCases();
    assert gdp[0].0 == Keys(gdp)[0] && gdp[1].0 == Keys(gdp)[1] && gdp[2].0 == Keys(gdp)[2] && gdp[3].0 == Keys(gdp)[3];
    assert ConverterHitFrom(converter, "c1", 0) == Some(0);
    assert GdpKeyFrom(gdp, "WX", 2) == Some(2);
    assert GdpKeyFrom(gdp, "WX", 1) == Some(2);
    assert GdpKeyFrom(gdp, "WX", 0) == Some(2);
  }

  lemma MixedResolvesC5(converter: Dict<string, string>, plot: Dict<string, string>, gdp: Dict<string, Row>)
    requires MixedTables(converter, plot, gdp)
    ensures Resolve(converter, gdp, "C5") == None
  {
    MixedCases();
    assert ConverterHitFrom(converter, "c5", 4) == None;
    assert ConverterHitFrom(converter, "c5", 3) == None;
    assert ConverterHitFrom(converter, "c5", 2) == None;
    assert ConverterHitFrom(converter, "c5", 1) == None;
    assert ConverterHitFrom(converter, "c5", 0) == None;
  }

  /** Example 4's plot codes are distinct, so each step appends a new entry. */
  lemma MixedCodesFresh()
    ensures "C3" !in Keys([("C4", "ef")])
    ensures "C2" !in Keys([("C4", "ef"), ("C3", "Kl")])
    ensures "C1" !in Keys([("C4", "ef"), ("C3", "Kl"), ("C2", "qR")])
  {
  }

  /** The matched prefixes of Example 4, one entry longer at each step. */
  lemma MixedPrefixes()
    ensures [("C4", "ef")] + [("C3", "Kl")] == [("C4", "ef"), ("C3", "Kl")]
    ensures [("C4", "ef"), ("C3", "Kl")] + [("C2", "qR")] == [("C4", "ef"), ("C3", "Kl"), ("C2", "qR")]
    ensures [("C4", "ef"), ("C3", "Kl"), ("C2", "qR")] + [("C1", "WX")] == [("C4", "ef"), ("C3", "Kl"), ("C2", "qR"), ("C1", "WX")]
  {
  }

  lemma MixedStepOne(converter: Dict<string, string>, plot: Dict<string, string>, gdp: Dict<string, Row>)
    requires MixedTables(converter, plot, gdp)
    ensures Reconciliation(converter, plot[..1], gdp) == ([("C4", "ef")], {})
  {
    assert Reconciliation(converter, plot[..0], gdp) == ([], {}) by {
      assert plot[..0] == [];
    }
    assert plot[0].0 == "C4" by {
      assert plot[0].0 == Keys(plot)[0];
    }
    PrefixStep(plot, 0);
    MixedResolvesC4(converter, plot, gdp);
    StepMatched(converter, plot[..0], gdp, [], {}, plot[0], "C4", "ef");
    assert [] + [("C4", "ef")] == [("C4", "ef")];
  }

  lemma MixedStepTwo(converter: Dict<string, string>, plot: Dict<string, string>, gdp: Dict<string, Row>)
    requires MixedTables(converter, plot, gdp)
    ensures Reconciliation(converter, plot[..2], gdp) == ([("C4", "ef"), ("C3", "Kl")], {})
  {
    MixedStepOne(converter, plot, gdp);
    assert plot[1].0 == "C3" by {
      assert plot[1].0 == Keys(plot)[1];
    }
    PrefixStep(plot, 1);
    MixedResolvesC3(converter, plot, gdp);
    MixedCodesFresh();
    MixedPrefixes();
    StepMatched(converter, plot[..1], gdp, [("C4", "ef")], {}, plot[1], "C3", "Kl");
  }

  lemma MixedStepThree(converter: Dict<string, string>, plot: Dict<string, string>, gdp: Dict<string, Row>)
    requires MixedTables(converter, plot, gdp)
    ensures Reconciliation(converter, plot[..3], gdp) == ([("C4", "ef"), ("C3", "Kl"), ("C2", "qR")], {})
  {
    MixedStepTwo(converter, plot, gdp);
    assert plot[2].0 == "C2" by {
      assert plot[2].0 == Keys(plot)[2];
    }
    PrefixStep(plot, 2);
    MixedResolvesC2(converter, plot, gdp);
    MixedCodesFresh();
    MixedPrefixes();
    StepMatched(converter, plot[..2], gdp, [("C4", "ef"), ("C3", "Kl")], {}, plot[2], "C2", "qR");
  }

  lemma MixedStepFour(converter: Dict<string, string>, plot: Dict<string, string>, gdp: Dict<string, Row>)
    requires MixedTables(converter, plot, gdp)
    ensures Reconciliation(converter, plot[..4], gdp) == ([("C4", "ef"), ("C3", "Kl"), ("C2", "qR"), ("C1", "WX")], {})
  {
    MixedStepThree(converter, plot, gdp);
    assert plot[3].0 == "C1" by {
      assert plot[3].0 == Keys(plot)[3];
    }
    PrefixStep(plot, 3);
    MixedResolvesC1(converter, plot, gdp);
    MixedCodesFresh();
    MixedPrefixes();
    StepMatched(converter, plot[..3], gdp, [("C4", "ef"), ("C3", "Kl"), ("C2", "qR")], {}, plot[3], "C1", "WX");
  }

  /**
   * Example 4: upper-case plot codes, a lower-case to mixed-case converter
   * and mixed-case GDP keys. Whatever the country names and the GDP rows,
   * each matched code records the GDP key in the table's own casing, and
   * the code the converter lacks is unmatched.
   */
  lemma ExampleFour(converter: Dict<string, string>, plot: Dict<string, string>, gdp: Dict<string, Row>)
    requires MixedTables(converter, plot, gdp)
    ensures Reconciliation(converter, plot, gdp) == ([("C4", "ef"), ("C3", "Kl"), ("C2", "qR"), ("C1", "WX")], {"C5"})
  {
    MixedStepFour(converter, plot, gdp);
    assert plot[4].0 == "C5" by {
      assert plot[4].0 == Keys(plot)[4];
    }
    PrefixStep(plot, 4);
    MixedResolvesC5(converter, plot, gdp);
    StepUnmatched(converter, plot[..4], gdp, [("C4", "ef"), ("C3", "Kl"), ("C2", "qR"), ("C1", "WX")], {}, plot[4], "C5");
    assert plot[..5] == plot;
    assert {} + {"C5"} == {"C5"};
  }
}
