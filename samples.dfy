/** Column resolution on concrete header lists: one in which every role has exactly one column
    from its alias table, and one in which the occupation code is only found by its pattern. */
module ResolutionSamples {
  import opened Resolution
  import Sequences
  import Patterns
  import Strings

  const SAMPLE: seq<string> := ["case_number", "case_status", "soc_code", "soc_name", "worksite_state"]

  /** Every role of `SAMPLE` resolves to the one column its alias table lists. */
  lemma SampleResolves()
    ensures ResolveAll(SAMPLE) == Roles(["soc_name"], ["soc_code"], ["case_status"], ["case_number"], ["worksite_state"])
  {
    SampleNames();
    SampleCodes();
    SampleStatus();
    SampleCases();
    SampleStates();
  }

  lemma SampleNames()
    ensures Columns(SAMPLE, OccupationName) == ["soc_name"]
  {
    Sequences.KeepOnly(SAMPLE, InTable(OccupationName), 3);
  }

  lemma SampleCodes()
    ensures Columns(SAMPLE, OccupationCode) == ["soc_code"]
  {
    Sequences.KeepOnly(SAMPLE, InTable(OccupationCode), 2);
  }

  lemma SampleStatus()
    ensures Columns(SAMPLE, Status) == ["case_status"]
  {
    Sequences.KeepOnly(SAMPLE, InTable(Status), 1);
  }

  lemma SampleCases()
    ensures Columns(SAMPLE, CaseNumber) == ["case_number"]
  {
    Sequences.KeepOnly(SAMPLE, InTable(CaseNumber), 0);
  }

  lemma SampleStates()
    ensures Columns(SAMPLE, WorkState) == ["worksite_state"]
  {
    Sequences.KeepOnly(SAMPLE, InTable(WorkState), 4);
  }

  const UNLISTED: seq<string> := ["case_status", "employer_soc_code"]

  /** No header of `UNLISTED` is a known code column, so the pattern `.*(soc).*_(code)$` decides:
      it accepts `employer_soc_code` and refuses `case_status`. */
  lemma FallbackSample()
    ensures Columns(UNLISTED, OccupationCode) == ["employer_soc_code"]
  {
    assert "employer_soc_code"[0] == 'e';
    Sequences.KeepNone(UNLISTED, InTable(OccupationCode));
    EmployerCode();
    StatusNotCode();
    Sequences.KeepOnly(UNLISTED, Matches(OccupationCode), 1);
  }

  lemma EmployerCode()
    ensures Patterns.Match(Patterns.Pieces(Fallback(OccupationCode)), "employer_soc_code", 0)
  {
    var p := Fallback(OccupationCode);
    var e := "employer_soc_code";
    assert Strings.OccursAt(e, "soc", 9) by { assert e[9..12] == "soc"; }
    assert Strings.OccursAt(e, "_code", 12) by { assert e[12..17] == "_code"; }
    assert Patterns.AtEnd(e, 17);
    assert Patterns.Described(p, e) by {
      assert p.stems[0] == "soc" && p.endings[0] == "_code";
    }
    Patterns.PatternMeaning(p, e);
  }

  lemma StatusNotCode()
    ensures !Patterns.Match(Patterns.Pieces(Fallback(OccupationCode)), "case_status", 0)
  {
    var p := Fallback(OccupationCode);
    var s := "case_status";
    assert p.endings == ["_code"];
    forall q: int, j: int | 0 <= q < |p.endings| && Strings.OccursAt(s, p.endings[q], j)
      ensures !Patterns.AtEnd(s, j + |p.endings[q]|)
    {
      assert s[j..j + 5] == "_code";
      assert s[j] == '_';
      assert s[6] == 't' && s[5] == 's';
    }
    Patterns.PatternMeaning(p, s);
  }
}
