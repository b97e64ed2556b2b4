/** The fixed reply texts the cog sends. */
module Messages {

  /** Sent when the service has no answer (wolfram/wolfram.py:45, 77, 115). */
  const Fallback: string := "There is as yet insufficient data for a meaningful answer."

  /** The fallback sentence, read as two halves. */
  lemma FallbackHalves()
    ensures Fallback == "There is as yet insufficient data " + "for a meaningful answer."
  {
  }

  /** The fallback sentence, read as four phrases. */
  lemma FallbackPhrases()
    ensures Fallback == "There is as yet " + "insufficient data " + "for a meaningful " + "answer."
  {
    FallbackHalves();
    assert "There is as yet " + "insufficient data " == "There is as yet insufficient data ";
    assert "for a meaningful " + "answer." == "for a meaningful answer.";
  }

  /** Sent when no usable API key is stored (wolfram/wolfram.py:30, 59, 95). */
  const NoKey: string := "No API key set for Wolfram Alpha. Get one at http://products.wolframalpha.com/api/"

  /** Acknowledgement of `setwolframapi` (wolfram/wolfram.py:125). */
  const KeySet: string := "Key set."

  /** The fallback is a single line. */
  lemma FallbackIsOneLine()
    ensures '\n' !in Fallback
  {
    FallbackPhrases();
    var p1, p2, p3, p4 := "There is as yet ", "insufficient data ", "for a meaningful ", "answer.";
    assert '\n' !in p1 && '\n' !in p2 && '\n' !in p3 && '\n' !in p4;
    assert Fallback == p1 + p2 + p3 + p4;
  }
}
