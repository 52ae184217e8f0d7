/** Opening a database right after upgrading it: OnUpgrade first, then OnOpen. */
module UpgradeThenOpen {
  import opened Schema
  import SchemaScripts
  import SchemaUpgrade
  import opened SchemaVersions
  import OpenRepair

  /** A first-version database ends with the altered tables of a fresh install, and with everything
      that opening checks for. */
  lemma UpgradedOpensRepaired(s: Schema)
    requires forall t :: IsAltered(t) ==> SchemaUpgrade.FirstVersion(s, t)
    ensures var result := OpenRepair.Opened(SchemaUpgrade.Upgraded(SchemaScripts.SmsChain(), s, 1, 35));
      OpenRepair.Repaired(result) &&
      forall t :: IsAltered(t) ==> t in result.tables && result.tables[t] == FreshColumns(t)
  {
    var upgraded := SchemaUpgrade.Upgraded(SchemaScripts.SmsChain(), s, 1, 35);
    forall t | IsAltered(t)
      ensures t in upgraded.tables && upgraded.tables[t] == FreshColumns(t)
      ensures t in OpenRepair.Opened(upgraded).tables && OpenRepair.Opened(upgraded).tables[t] == FreshColumns(t)
    {
      SchemaUpgrade.UpgradeReachesFreshColumns(s, t);
      OpenRepair.OpenedTable(upgraded, t);
      OpenRepair.RepairedIsFresh(t);
    }
    FreshFits(upgraded);
    OpenRepair.OpenRepairsIff(upgraded);
  }

  lemma FreshFits(s: Schema)
    requires forall t :: IsAltered(t) ==> t in s.tables && s.tables[t] == FreshColumns(t)
    ensures OpenRepair.Repairable(s)
  {
    forall c <- OpenRepair.INDEXES ensures OpenRepair.Fits(s, c) {
      OpenRepair.IndexIsFresh(c);
    }
  }
}
