/**
  What each command does before and after its one request: the argument and
  key guards, the request it builds, and, for `wolframimage`, what it sends
  for the bytes it gets back. The network itself is outside the model: a
  command's decision is a `Step`, and a `Fetch` step is the only one that
  issues a request.
 */
module Commands {
  import opened Wrappers
  import opened Strings
  import Messages

  newtype byte = x: int | 0 <= x < 256

  /** One HTTP GET: the URL, the query parameters the client appends to it, and the headers. */
  datatype Request = Request(url: string, params: seq<(string, string)>, headers: seq<(string, string)>)

  /** What a command does once invoked. */
  datatype Step =
    | ShowHelp              // the framework's help for the command; no request
    | Say(text: string)     // one plain message; no request
    | Fetch(req: Request)   // one request, whose reply is formatted afterwards

  /** What `wolframimage` sends for the body it received. */
  datatype Delivery =
    | Text(text: string)
    | Attachment(fileName: string, content: seq<byte>)

  const QueryEndpoint := "http://api.wolframalpha.com/v2/query?"
  const SimpleEndpoint := "http://api.wolframalpha.com/v1/simple?"
  const UserAgent := "Red-cog/2.0.0"

  /** Fixed presentation parameters of the image request (wolfram/wolfram.py:62-67). */
  const Width: nat := 800
  const FontSize: nat := 30
  const Layout := "labelbar"
  const Background := "193555"
  const Foreground := "white"
  const Units := "metric"

  /** Length of the service's "did not understand" body, which stands for "no answer". */
  const SentinelLength := 43

  /** The key as the commands use it: `None` and the empty string both mean "no key". */
  function UsableKey(stored: Option<string>): Option<string>
  {
    if stored.Some? && stored.value != "" then stored else None
  }

  // ---------------------------------------------------------------------------
  // Requests
  // ---------------------------------------------------------------------------

  /**
    The query fields of the `wolframimage` URL, in the order of the source's
    f-string: the key, the "+"-joined arguments followed by an encoded "?",
    then the fixed presentation parameters.
   */
  function ImageFields(key: string, arguments: seq<string>): seq<string>
  {
    ["appid=" + key, "i=" + Join("+", arguments) + "%3F", "width=" + Decimal(Width),
     "fontsize=" + Decimal(FontSize), "layout=" + Layout, "background=" + Background,
     "foreground=" + Foreground, "units=" + Units]
  }

  /** The URL of `wolframimage`: the endpoint and its fields joined with "&". */
  function ImageUrl(key: string, arguments: seq<string>): string
  {
    SimpleEndpoint + Join("&", ImageFields(key, arguments))
  }

  /** The query fields of the `wolframsolve` URL, in the order of the source's f-string. */
  function SolveFields(key: string, arguments: seq<string>): seq<string>
  {
    ["appid=" + key, "input=solve+" + Join("+", arguments),
     "podstate=Result__Step-by-step+solution", "format=plaintext"]
  }

  /** The URL of `wolframsolve`: the endpoint and its fields joined with "&". */
  function SolveUrl(key: string, arguments: seq<string>): string
  {
    QueryEndpoint + Join("&", SolveFields(key, arguments))
  }

  /** `wolfram`: no argument check; a missing key stops it; otherwise the question goes out as parameters. */
  function AskStep(question: seq<string>, stored: Option<string>): Step
  {
    match UsableKey(stored)
    case None => Say(Messages.NoKey)
    case Some(key) =>
      Fetch(Request(QueryEndpoint, [("input", Join(" ", question)), ("appid", key)], [("user-agent", UserAgent)]))
  }

  /** `wolframimage`: help for no arguments, before the key is read; then the key check; then the image request. */
  function ImageStep(arguments: seq<string>, stored: Option<string>): Step
  {
    if |arguments| == 0 then ShowHelp
    else match UsableKey(stored)
      case None => Say(Messages.NoKey)
      case Some(key) => Fetch(Request(ImageUrl(key, arguments), [], []))
  }

  /** `wolframsolve`: the same guards as `wolframimage`, then the step-by-step request. */
  function SolveStep(arguments: seq<string>, stored: Option<string>): Step
  {
    if |arguments| == 0 then ShowHelp
    else match UsableKey(stored)
      case None => Say(Messages.NoKey)
      case Some(key) => Fetch(Request(SolveUrl(key, arguments), [], []))
  }

  /** The name of the image attachment: `wolfram<author id>.png`. */
  function AttachmentName(authorId: nat): string
  {
    "wolfram" + Decimal(authorId) + ".png"
  }

  /** What `wolframimage` sends for a received body. */
  function ImageDelivery(body: seq<byte>, authorId: nat): Delivery
  {
    if |body| == SentinelLength then Text(Messages.Fallback)
    else Attachment(AttachmentName(authorId), body)
  }

  // ---------------------------------------------------------------------------
  // Guards
  // ---------------------------------------------------------------------------

  /** With no arguments, `wolframimage` and `wolframsolve` show help whatever the stored key. */
  lemma HelpBeforeKey(stored: Option<string>, other: Option<string>)
    ensures ImageStep([], stored) == ImageStep([], other) == ShowHelp
    ensures SolveStep([], stored) == SolveStep([], other) == ShowHelp
  {
  }

  /**
    With no usable key, `wolfram` answers with the no-key message whatever its
    arguments, and the image and solve commands do so whenever they have
    arguments (without any, they show help first).
   */
  lemma MissingKeyStops(arguments: seq<string>, stored: Option<string>)
    requires stored == None || stored == Some("")
    ensures AskStep(arguments, stored) == Say(Messages.NoKey)
    ensures |arguments| > 0 ==> ImageStep(arguments, stored) == Say(Messages.NoKey)
    ensures |arguments| > 0 ==> SolveStep(arguments, stored) == Say(Messages.NoKey)
  {
  }

  /**
    A request is issued only with a usable key (and, for the image and solve
    commands, at least one argument), and it carries that key.
   */
  lemma RequestOnlyWithKey(arguments: seq<string>, stored: Option<string>)
    ensures AskStep(arguments, stored).Fetch?
        <==> stored.Some? && stored.value != ""
    ensures ImageStep(arguments, stored).Fetch?
        <==> |arguments| > 0 && stored.Some? && stored.value != ""
    ensures SolveStep(arguments, stored).Fetch?
        <==> |arguments| > 0 && stored.Some? && stored.value != ""
    ensures AskStep(arguments, stored).Fetch? ==> AskStep(arguments, stored).req.params[1] == ("appid", stored.value)
  {
  }

  /** `wolfram` never shows help: with no words it still asks about the empty question. */
  lemma AskNeverShowsHelp(stored: Option<string>)
    ensures AskStep([], stored) != ShowHelp
    ensures stored.Some? && stored.value != "" ==> AskStep([], stored).req.params[0] == ("input", "")
  {
  }

  // ---------------------------------------------------------------------------
  // URLs
  // ---------------------------------------------------------------------------

  /** No '&' in the key or the arguments: the query string can be taken apart again. */
  predicate Separable(key: string, arguments: seq<string>)
  {
    '&' !in key && forall i | 0 <= i < |arguments| :: '&' !in arguments[i]
  }

  /**
    Taking the image URL apart at "&" gives back its fields in order: the
    key, the question followed by "%3F", then width, font size, layout,
    background, foreground and units.
   */
  lemma ImageUrlFields(key: string, arguments: seq<string>)
    requires Separable(key, arguments)
    ensures var url := ImageUrl(key, arguments);
      url[..|SimpleEndpoint|] == SimpleEndpoint
      && Split(url[|SimpleEndpoint|..], "&") == ImageFields(key, arguments)
  {
    var f := ImageFields(key, arguments);
    JoinAvoids("+", arguments, '&');
    assert '&' !in Decimal(Width) && '&' !in Decimal(FontSize);
    assert forall i | 0 <= i < |f| :: '&' !in f[i];
    SplitJoin("&", f);
    var url := ImageUrl(key, arguments);
    assert url[|SimpleEndpoint|..] == Join("&", f);
  }

  /**
    Taking the solve URL apart at "&" gives back its fields in order: the key,
    "solve+" and the question, the step-by-step pod state, the plaintext format.
   */
  lemma SolveUrlFields(key: string, arguments: seq<string>)
    requires Separable(key, arguments)
    ensures var url := SolveUrl(key, arguments);
      url[..|QueryEndpoint|] == QueryEndpoint
      && Split(url[|QueryEndpoint|..], "&") == SolveFields(key, arguments)
  {
    var f := SolveFields(key, arguments);
    JoinAvoids("+", arguments, '&');
    assert forall i | 0 <= i < |f| :: '&' !in f[i];
    SplitJoin("&", f);
    var url := SolveUrl(key, arguments);
    assert url[|QueryEndpoint|..] == Join("&", f);
  }

  /** The question in either URL splits back into the command's arguments when none holds a "+". */
  lemma QuestionRecoversArguments(arguments: seq<string>)
    requires |arguments| > 0 && forall i | 0 <= i < |arguments| :: '+' !in arguments[i]
    ensures Split(Join("+", arguments), "+") == arguments
  {
    SplitJoin("+", arguments);
  }

  /** The fixed part of the image query, as it appears on the wire. */
  lemma ImageFixedFields(key: string, arguments: seq<string>)
    ensures ImageFields(key, arguments)[2..]
         == ["width=800", "fontsize=30", "layout=labelbar", "background=193555", "foreground=white", "units=metric"]
  {
    var f := ImageFields(key, arguments);
    assert f[2] == "width=800" by { assert Decimal(Width) == "800"; }
    assert f[3] == "fontsize=30" by { assert Decimal(FontSize) == "30"; }
    assert f[4] == "layout=labelbar";
    assert f[5] == "background=193555";
    assert f[6] == "foreground=white";
    assert f[7] == "units=metric";
  }

  // ---------------------------------------------------------------------------
  // The image reply
  // ---------------------------------------------------------------------------

  /**
    A 43-byte body yields the fallback text and no attachment; any other body
    is sent unchanged as one attachment whose name carries the author's id.
   */
  lemma ImageDeliveryCases(body: seq<byte>, authorId: nat)
    ensures ImageDelivery(body, authorId).Text? <==> |body| == SentinelLength
    ensures |body| == SentinelLength ==> ImageDelivery(body, authorId) == Text(Messages.Fallback)
    ensures |body| != SentinelLength ==>
      var d := ImageDelivery(body, authorId);
      d.content == body && AuthorOf(d.fileName) == Some(authorId)
  {
    if |body| != SentinelLength {
      AttachmentNameNamesAuthor(authorId);
    }
  }

  /** Reads the author id back out of an attachment name, if it has the `wolfram<digits>.png` shape. */
  function AuthorOf(name: string): Option<nat>
  {
    if |name| >= 11 && name[..7] == "wolfram" && name[|name| - 4..] == ".png" && IsDigits(name[7..|name| - 4])
    then Some(ParseDecimal(name[7..|name| - 4]))
    else None
  }

  /** The attachment name gives back the author's id. */
  lemma AttachmentNameNamesAuthor(authorId: nat)
    ensures AuthorOf(AttachmentName(authorId)) == Some(authorId)
  {
    var digits := Decimal(authorId);
    var name := AttachmentName(authorId);
    assert name[..7] == "wolfram";
    assert name[|name| - 4..] == ".png";
    assert name[7..|name| - 4] == digits;
    DecimalRoundTrip(authorId);
  }

  /** Different authors get differently named attachments. */
  lemma AttachmentNamesDistinct(a: nat, b: nat)
    requires a != b
    ensures AttachmentName(a) != AttachmentName(b)
  {
    AttachmentNameNamesAuthor(a);
    AttachmentNameNamesAuthor(b);
  }
}
