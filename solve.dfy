/**
  The reply of the `wolframsolve` command: every pod of the step-by-step
  answer except the number line becomes a section, its title on one line and
  each of its non-empty plaintexts as a bullet with table separators removed;
  an empty result becomes the fallback sentence.
 */
module StepByStep {
  import opened Wrappers
  import opened Strings
  import opened Xml
  import Messages

  /** The title of the pod the reply leaves out. */
  const NumberLine := "Number line"

  /** Separator artifacts removed from a bullet, in this order. */
  const Spaced := " | "
  const Trailing := "| "

  /** The bullet text: `text.replace(" | ", "").replace("| ", "")`. */
  function Strip(t: string): string
  {
    Replace(Replace(t, Spaced, ""), Trailing, "")
  }

  /** The bullet a plaintext contributes: nothing when it is absent or empty. */
  function Bullet(t: Option<string>): string
  {
    if Present(t) then "- " + Strip(t.value) + "\n\n" else ""
  }

  /** The bullets of a pod's plaintexts, in document order. */
  function Bullets(texts: seq<Option<string>>): string
  {
    if |texts| == 0 then "" else Bullet(texts[0]) + Bullets(texts[1..])
  }

  /** What one pod contributes: nothing for the number line, else its title line and bullets. */
  function Section(p: Pod): string
  {
    if p.title == NumberLine then "" else p.title + "\n" + Bullets(p.texts)
  }

  /** The accumulated message, section by section in document order. */
  function Body(pods: seq<Pod>): string
  {
    if |pods| == 0 then "" else Section(pods[0]) + Body(pods[1..])
  }

  /** The reply, before it is wrapped in a code block. */
  function Solution(pods: seq<Pod>): string
  {
    var msg := Body(pods);
    if |msg| < 1 then Messages.Fallback else msg
  }

  /** Bullets distribute over concatenation of plaintext lists. */
  lemma {:induction false} BulletsAppend(s: seq<Option<string>>, t: seq<Option<string>>)
    ensures Bullets(s + t) == Bullets(s) + Bullets(t)
  {
    if |s| == 0 {
      assert s + t == t;
    } else {
      assert (s + t)[1..] == s[1..] + t;
      BulletsAppend(s[1..], t);
      AppendAssoc(Bullet(s[0]), Bullets(s[1..]), Bullets(t));
    }
  }

  /** Sections distribute over concatenation of pod lists: document order is kept. */
  lemma {:induction false} BodyAppend(s: seq<Pod>, t: seq<Pod>)
    ensures Body(s + t) == Body(s) + Body(t)
  {
    if |s| == 0 {
      assert s + t == t;
    } else {
      assert (s + t)[1..] == s[1..] + t;
      BodyAppend(s[1..], t);
      AppendAssoc(Section(s[0]), Body(s[1..]), Body(t));
    }
  }

  /** A number-line pod, wherever it stands, adds nothing to the body. */
  lemma NumberLineAddsNothing(before: seq<Pod>, p: Pod, after: seq<Pod>)
    requires p.title == NumberLine
    ensures Body(before + [p] + after) == Body(before + after)
  {
    assert Body([p]) == "" by {
      assert Body([p]) == Section(p) + Body([]);
    }
    BodyAppend(before, [p]);
    assert Body(before + [p]) == Body(before);
    BodyAppend(before + [p], after);
    BodyAppend(before, after);
  }

  /** A number-line pod, wherever it stands, changes nothing in the reply. */
  lemma NumberLineIgnored(before: seq<Pod>, p: Pod, after: seq<Pod>)
    requires p.title == NumberLine
    ensures Solution(before + [p] + after) == Solution(before + after)
  {
    NumberLineAddsNothing(before, p, after);
  }

  /** A kept pod always contributes its title line, even with no plaintext. */
  lemma {:induction false} SectionShowsTitle(p: Pod)
    requires p.title != NumberLine
    ensures Section(p)[..|p.title| + 1] == p.title + "\n"
    ensures (forall i | 0 <= i < |p.texts| :: !Present(p.texts[i])) ==> Section(p) == p.title + "\n"
  {
    if forall i | 0 <= i < |p.texts| :: !Present(p.texts[i]) {
      NoBullets(p.texts);
    }
  }

  /** Plaintexts none of which is present contribute no bullet. */
  lemma {:induction false} NoBullets(texts: seq<Option<string>>)
    requires forall i | 0 <= i < |texts| :: !Present(texts[i])
    ensures Bullets(texts) == ""
  {
    if |texts| > 0 {
      assert !Present(texts[0]);
      NoBullets(texts[1..]);
    }
  }

  /** The body is empty exactly when every pod is a number line (or there are none). */
  lemma {:induction false} BodyEmptyIff(pods: seq<Pod>)
    ensures Body(pods) == "" <==> forall i | 0 <= i < |pods| :: pods[i].title == NumberLine
  {
    if |pods| > 0 {
      BodyEmptyIff(pods[1..]);
      assert forall i | 1 <= i < |pods| :: pods[i] == pods[1..][i - 1];
    }
  }

  /** When some pod is kept, the body holds a line break. */
  lemma {:induction false} BodyHasLineBreak(pods: seq<Pod>, k: nat)
    requires k < |pods| && pods[k].title != NumberLine
    ensures '\n' in Body(pods)
  {
    if k == 0 {
      var sec := Section(pods[0]);
      assert sec[|pods[0].title|] == '\n';
      assert Body(pods)[|pods[0].title|] == '\n';
    } else {
      BodyHasLineBreak(pods[1..], k - 1);
    }
  }

  /**
    The reply is the fallback sentence exactly when every pod is a number
    line, including when there are no pods at all.
   */
  lemma SolutionIsFallbackIff(pods: seq<Pod>)
    ensures Solution(pods) == Messages.Fallback
        <==> forall i | 0 <= i < |pods| :: pods[i].title == NumberLine
  {
    BodyEmptyIff(pods);
    if exists k | 0 <= k < |pods| :: pods[k].title != NumberLine {
      var k :| 0 <= k < |pods| && pods[k].title != NumberLine;
      BodyHasLineBreak(pods, k);
      Messages.FallbackIsOneLine();
    }
  }

  /** Text without a pipe character passes through the stripping unchanged. */
  lemma StripWithoutPipe(t: string)
    requires '|' !in t
    ensures Strip(t) == t
  {
    forall i
      ensures !OccursAt(t, Spaced, i)
    {
      if 0 <= i && i + |Spaced| <= |t| {
        assert t[i..i + |Spaced|][1] == t[i + 1] != '|';
      }
    }
    ReplaceAbsent(t, Spaced, "");
    forall i
      ensures !OccursAt(t, Trailing, i)
    {
      if 0 <= i && i + |Trailing| <= |t| {
        assert t[i..i + |Trailing|][0] == t[i] != '|';
      }
    }
    ReplaceAbsent(t, Trailing, "");
  }

  /** Stripping never lengthens a text. */
  lemma StripShortens(t: string)
    ensures |Strip(t)| <= |t|
  {
    RemoveShortens(t, Spaced);
    RemoveShortens(Replace(t, Spaced, ""), Trailing);
  }

  /**
    Each replacement is a single left-to-right pass, so removing "| " can
    create a new "| ": the text "||  " becomes "| ".
   */
  lemma StripCanLeaveSeparator()
    ensures Strip("||  ") == "| "
  {
    assert Replace("||  ", Spaced, "") == "||  ";
    assert Replace(" ", Trailing, "") == " ";
    assert Replace("||  ", Trailing, "") == "|" + Replace(" ", Trailing, "");
  }

  /** One more pod extends the body by that pod's section. */
  lemma BodyStep(pods: seq<Pod>, i: nat)
    requires i < |pods|
    ensures Body(pods[..i + 1]) == Body(pods[..i]) + Section(pods[i])
  {
    var last := [pods[i]];
    assert pods[..i + 1] == pods[..i] + last;
    BodyAppend(pods[..i], last);
    assert last[1..] == [];
    assert Body(last) == Section(pods[i]) + Body([]);
    assert Section(pods[i]) + "" == Section(pods[i]);
  }

  /** One more plaintext extends the bullets by that plaintext's bullet. */
  lemma BulletsStep(texts: seq<Option<string>>, j: nat)
    requires j < |texts|
    ensures Bullets(texts[..j + 1]) == Bullets(texts[..j]) + Bullet(texts[j])
  {
    var last := [texts[j]];
    assert texts[..j + 1] == texts[..j] + last;
    BulletsAppend(texts[..j], last);
    assert last[1..] == [];
    assert Bullets(last) == Bullet(texts[j]) + Bullets([]);
    assert Bullet(texts[j]) + "" == Bullet(texts[j]);
  }

  /**
    The inner loop of wolfram/wolfram.py:110-113: appends to `msg` the bullet
    of each non-empty plaintext of one pod.
   */
  method AppendBullets(msg0: string, texts: seq<Option<string>>) returns (msg: string)
    ensures msg == msg0 + Bullets(texts)
  {
    msg := msg0;
    for j := 0 to |texts|
      invariant msg == msg0 + Bullets(texts[..j])
    {
      BulletsStep(texts, j);
      var pt := texts[j];
      if pt.Some? && |pt.value| > 0 {
        var strip := Replace(Replace(pt.value, " | ", ""), "| ", "");
        AppendAssoc(msg0, Bullets(texts[..j]), "- " + strip + "\n\n");
        msg := msg + ("- " + strip + "\n\n");
      }
    }
    assert texts[..|texts|] == texts;
  }

  /** The loop of wolfram/wolfram.py:100-115, accumulating the message as the source does. */
  method FormatSolution(pods: seq<Pod>) returns (msg: string)
    ensures msg == Solution(pods)
  {
    msg := "";
    for i := 0 to |pods|
      invariant msg == Body(pods[..i])
    {
      var pod := pods[i];
      BodyStep(pods, i);
      if pod.title == NumberLine {
        continue;
      }
      AppendAssoc(msg, pod.title + "\n", Bullets(pod.texts));
      msg := AppendBullets(msg + (pod.title + "\n"), pod.texts);
    }
    assert pods[..|pods|] == pods;
    if |msg| < 1 {
      msg := Messages.Fallback;
    }
  }
}
