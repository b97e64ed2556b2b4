/**
  The text answer of the `wolfram` (alias `ask`) command: the plaintext nodes of
  the service's XML reply, in document order, become at most three capitalised
  lines, or the fallback sentence when there are none.

  The parsed XML is taken as the sequence of the `plaintext` nodes' texts,
  `None` standing for a node without text.
 */
module TextAnswer {
  import opened Wrappers
  import opened Strings
  import Messages
  import opened Xml

  /** The capitalised texts of the present nodes, in document order. */
  function Kept(texts: seq<Option<string>>): (a: seq<string>)
    ensures |a| <= |texts|
    ensures forall k | 0 <= k < |a| :: |a[k]| > 0 && Capitalize(a[k]) == a[k]
  {
    if |texts| == 0 then []
    else
      var rest := Kept(texts[1..]);
      if Present(texts[0]) then
        CapitalizeIdempotent(texts[0].value);
        [Capitalize(texts[0].value)] + rest
      else rest
  }

  /** The most answers the reply shows. */
  const MaxLines := 3

  /** The reply, before it is wrapped in a code block. */
  function Answer(texts: seq<Option<string>>): string
  {
    var a := Kept(texts);
    if |a| < 1 then Messages.Fallback
    else Join("\n", a[..if |a| < MaxLines then |a| else MaxLines])
  }

  /** Keeping distributes over concatenation: document order is preserved. */
  lemma {:induction false} KeptAppend(s: seq<Option<string>>, t: seq<Option<string>>)
    ensures Kept(s + t) == Kept(s) + Kept(t)
  {
    if |s| == 0 {
      assert s + t == t;
    } else {
      assert (s + t)[1..] == s[1..] + t;
      KeptAppend(s[1..], t);
      if Present(s[0]) {
        AppendAssoc([Capitalize(s[0].value)], Kept(s[1..]), Kept(t));
      }
    }
  }

  /** A lone node contributes its capitalised text when it is present, and nothing otherwise. */
  lemma KeptSingle(t: Option<string>)
    ensures Kept([t]) == if Present(t) then [Capitalize(t.value)] else []
  {
    assert [t][1..] == [];
  }

  /** Nothing is kept exactly when no node has a non-empty text. */
  lemma {:induction false} KeptEmpty(texts: seq<Option<string>>)
    ensures Kept(texts) == [] <==> forall i | 0 <= i < |texts| :: !Present(texts[i])
  {
    if |texts| > 0 {
      KeptEmpty(texts[1..]);
      assert forall i | 1 <= i < |texts| :: texts[i] == texts[1..][i - 1];
    }
  }

  /**
    Reference definition of the loop at wolfram/wolfram.py:40-43: walk the
    nodes, append the capitalised text of each present one.
   */
  method CollectAnswers(texts: seq<Option<string>>) returns (a: seq<string>)
    ensures a == Kept(texts)
  {
    a := [];
    for i := 0 to |texts|
      invariant a == Kept(texts[..i])
    {
      KeptAppend(texts[..i], [texts[i]]);
      KeptSingle(texts[i]);
      assert texts[..i + 1] == texts[..i] + [texts[i]];
      var pt := texts[i];
      if pt.Some? && |pt.value| > 0 {
        a := a + [Capitalize(pt.value)];
      }
    }
    assert texts[..|texts|] == texts;
  }

  /** The reply of wolfram/wolfram.py:40-47, computed as the source does. */
  method FormatAnswer(texts: seq<Option<string>>) returns (message: string)
    ensures message == Answer(texts)
  {
    var a := CollectAnswers(texts);
    if |a| < 1 {
      message := Messages.Fallback;
    } else {
      message := Join("\n", a[0..if |a| < 3 then |a| else 3]);
    }
  }

  /** With no present node the reply is the fallback sentence. */
  lemma NoAnswerGivesFallback(texts: seq<Option<string>>)
    requires forall i | 0 <= i < |texts| :: !Present(texts[i])
    ensures Answer(texts) == Messages.Fallback
  {
    KeptEmpty(texts);
  }

  /**
    The reply is the fallback sentence exactly when no node is present, or
    when the only present node reads, once capitalised, as the fallback itself.
   */
  lemma AnswerIsFallbackIff(texts: seq<Option<string>>)
    ensures Answer(texts) == Messages.Fallback
        <==> Kept(texts) == [] || Kept(texts) == [Messages.Fallback]
  {
    var a := Kept(texts);
    if |a| >= 2 {
      var shown := a[..if |a| < MaxLines then |a| else MaxLines];
      JoinShowsSeparator("\n", shown);
      Messages.FallbackIsOneLine();
    } else if |a| == 1 {
      assert a[..1] == a;
    }
  }

  /** The fallback sentence itself is a plaintext that yields the fallback reply. */
  lemma FallbackTextCollides()
    ensures Answer([Some("there is as yet " + "insufficient data " + "for a meaningful " + "answer.")])
         == Messages.Fallback
  {
    var p1, p2, p3, p4 := "there is as yet ", "insufficient data ", "for a meaningful ", "answer.";
    var t := p1 + p2 + p3 + p4;
    assert Capitalize(p1) == "There is as yet ";
    CapitalizeAppendLower(p1, p2);
    CapitalizeAppendLower(p1 + p2, p3);
    CapitalizeAppendLower(p1 + p2 + p3, p4);
    KeptSingle(Some(t));
    Messages.FallbackPhrases();
  }

  /**
    When some node is present and no kept text spans several lines, the
    reply's lines are the first min(3, n) kept texts, in order.
   */
  lemma AnswerLines(texts: seq<Option<string>>)
    requires Kept(texts) != []
    requires forall k | 0 <= k < |Kept(texts)| :: '\n' !in Kept(texts)[k]
    ensures var a := Kept(texts);
      Split(Answer(texts), "\n") == a[..if |a| < MaxLines then |a| else MaxLines]
  {
    var a := Kept(texts);
    var shown := a[..if |a| < MaxLines then |a| else MaxLines];
    SplitJoin("\n", shown);
  }

  /** The reply shows at most three answers. */
  lemma AtMostThreeLines(texts: seq<Option<string>>)
    requires forall k | 0 <= k < |Kept(texts)| :: '\n' !in Kept(texts)[k]
    ensures |Split(Answer(texts), "\n")| <= MaxLines
  {
    if Kept(texts) == [] {
      Messages.FallbackIsOneLine();
      SplitWithoutSeparator(Messages.Fallback, "\n");
    } else {
      AnswerLines(texts);
    }
  }
}
