/** Worked examples for interactive_demo.py: concrete questions and lines
    whose routing follows from the general lemmas of `InteractiveDemo`. A
    category is shown missed by naming, for each of its keywords, one
    character of the keyword that the question lacks. */
module InteractiveExamples {
  import opened Text
  import opened Router
  import opened InteractiveDemo
  import opened TextExamples

  /** `"healthcare ai"` hits the AI category too, but industry comes first:
      the answer is one of the first three, and neither of the first two. */
  lemma HealthcareAiIsIndustry()
    ensures Hits(Table[7], Lower("healthcare ai"))
    ensures RespondToQuestion("healthcare ai") == Industry
  {
    var q := "healthcare ai";
    HealthcareAiIsLower();
    HealthcareAiHitsAi();
    assert OccursAt(q, "healthcare", 0) by {
      assert q[0..10] == "healthcare";
    }
    HealthcareIsNeverAi(q);
    HealthcareAiMissesEducation();
    RespondFirstMatch(q, 0);
    HealthcareAiMissesResearch();
    RespondFirstMatch(q, 1);
  }

  lemma HealthcareAiIsLower()
    ensures Lower("healthcare ai") == "healthcare ai"
  {
  }

  lemma HealthcareAiHitsAi()
    ensures Hits(Table[7], "healthcare ai")
  {
    assert OccursAt("healthcare ai", "ai", 11) by {
      assert "healthcare ai"[11..13] == "ai";
    }
    assert Table[7].keywords[0] == "ai";
  }

  lemma HealthcareAiMissesEducation()
    ensures !Hits(Table[0], "healthcare ai")
  {
    MissedByMarks(Table[0], "healthcare ai", [1, 0, 0, 0, 3, 0]);
  }

  lemma HealthcareAiMissesResearch()
    ensures !Hits(Table[1], "healthcare ai")
  {
    MissedByMarks(Table[1], "healthcare ai", [2, 3, 3, 3, 0]);
  }

  /** `ai` matches inside a word: `"explain"` gets the AI paragraph. */
  lemma ExplainIsAi()
    ensures RespondToQuestion("explain") == Ai
  {
    ExplainFirstHitsAi();
    RouteFirstHit(Table, Fallback, "explain", 7);
  }

  lemma ExplainFirstHitsAi()
    ensures FirstHit(Table, Lower("explain"), 7)
  {
    var q := "explain";
    assert Lower(q) == q;
    assert Hits(Table[7], q) by {
      assert OccursAt(q, "ai", 4) by {
        assert q[4..6] == "ai";
      }
      assert Table[7].keywords[0] == "ai";
    }
    forall j | 0 <= j < 7 ensures !Hits(Table[j], q) {
      if j == 0 {
        ExplainMissesEducation();
      } else if j == 1 {
        ExplainMissesResearch();
      } else if j == 2 {
        ExplainMissesIndustry();
      } else if j == 3 {
        ExplainMissesTechnical();
      } else if j == 4 {
        ExplainMissesLeadership();
      } else if j == 5 {
        ExplainMissesBackground();
      } else {
        ExplainMissesFuture();
      }
    }
  }

  lemma ExplainMissesEducation()
    ensures !Hits(Table[0], "explain")
  {
    MissedByMarks(Table[0], "explain", [1, 0, 0, 0, 0, 0]);
  }

  lemma ExplainMissesResearch()
    ensures !Hits(Table[1], "explain")
  {
    MissedByMarks(Table[1], "explain", [0, 0, 0, 0, 0]);
  }

  lemma ExplainMissesIndustry()
    ensures !Hits(Table[2], "explain")
  {
    MissedByMarks(Table[2], "explain", [0, 2, 0, 2, 0]);
  }

  lemma ExplainMissesTechnical()
    ensures !Hits(Table[3], "explain")
  {
    MissedByMarks(Table[3], "explain", [1, 0, 0, 1, 0, 0]);
  }

  lemma ExplainMissesLeadership()
    ensures !Hits(Table[4], "explain")
  {
    MissedByMarks(Table[4], "explain", [3, 0, 0, 1, 0]);
  }

  lemma ExplainMissesBackground()
    ensures !Hits(Table[5], "explain")
  {
    MissedByMarks(Table[5], "explain", [0, 1, 0, 0, 0, 0]);
  }

  lemma ExplainMissesFuture()
    ensures !Hits(Table[6], "explain")
  {
    MissedByMarks(Table[6], "explain", [0, 0, 4, 0, 0]);
  }

  /** The quit test is whole-line equality after stripping and lower-casing:
      `" GoodBye "` quits. */
  lemma PaddedGoodByeQuits()
    ensures IsQuit(Strip(" GoodBye "))
  {
    PaddedGoodByeStripped();
    GoodByeIsQuit();
  }

  /** Case does not matter to the quit test. */
  lemma GoodByeIsQuit()
    ensures IsQuit("GoodBye")
  {
    assert Lower("GoodBye") == "goodbye";
    assert QuitWords[3] == "goodbye";
  }

  /** A quit word followed by more text is not a quit: `"bye now"` is
      neither a quit nor blank, so it is routed as a question. */
  lemma ByeNowIsRouted()
    ensures !IsQuit(Strip("bye now")) && Strip("bye now") != []
    ensures LineEvent("bye now") == Answered(RespondToQuestion("bye now"))
  {
    var q := "bye now";
    ByeNowStripped();
    assert Lower(q) == q;
    assert q != QuitWords[0] && q != QuitWords[1] && q != QuitWords[2];
    assert q[0] != QuitWords[3][0];
  }
}
