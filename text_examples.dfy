/** Worked examples of `strip()` on the lines the chat loop reads. */
module TextExamples {
  import opened Text

  /** Whitespace at both ends goes. */
  lemma PaddedGoodByeStripped()
    ensures Strip(" GoodBye ") == "GoodBye"
  {
    assert " GoodBye " == " " + "GoodBye" + " ";
    StripAroundWord(" ", "GoodBye", " ");
  }

  /** Inner whitespace stays. */
  lemma ByeNowStripped()
    ensures Strip("bye now") == "bye now"
  {
    assert "bye now" == [] + "bye now" + [];
    StripAroundWord([], "bye now", []);
  }
}
