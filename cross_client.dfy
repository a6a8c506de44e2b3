/** How the two clients relate: they declare the same rule table, but they
    disagree on a zero number, which Go treats as absent. */
module CrossClient {
  import opened Wrappers
  import opened Rules
  import JV = JavaValidation
  import JF = JavaValidationFacts
  import G = GoTypes
  import GF = GoFacts

  /** The Java table and the Go table hold the same five rules. */
  lemma SameRuleTable()
    ensures G.GoRules() == JV.ValidationRules()
  {
  }

  /** Quality 0: the Java client reports it below the minimum, while the Go
      client, for which 0 means "not set", accepts a request that is
      otherwise valid. */
  lemma ZeroQualityDisagreement(entries: seq<JV.Entry>, params: map<string, JV.Value>, parse: JV.Parser, r: G.Request)
    requires JV.EntrySetOf(entries, JV.ValidationRules())
    requires "quality" in params && params["quality"] == JV.Num(0)
    requires r.image != "" && r.outputFormat != "" && r.quality == 0 && r.maxWidth == 0 && r.maxHeight == 0
    ensures Named(JV.Violations(entries, Some(params), parse), "quality") == [BelowMin("quality", 1)]
    ensures G.FieldViolations(G.GoRules(), G.Fields(r)) == []
  {
    JF.WholeNumberBounds(entries, Some(params), parse, "quality", 100, 0);
    GF.RequestAccepted(r);
  }
}
