/**
  The one piece of state the cog keeps: the service's API key, absent until
  the bot owner sets it with `setwolframapi` (alias `setwolfram`).
 */
module Credentials {
  import opened Wrappers
  import opened Strings
  import Messages
  import Commands

  /**
    The stored key after `setwolframapi key` (wolfram/wolfram.py:123-124): a
    non-empty key is stored exactly, an empty one leaves the old value.
   */
  function KeyAfterSet(stored: Option<string>, key: string): Option<string>
  {
    if key != "" then Some(key) else stored
  }

  /** The stored key after a series of `setwolframapi` calls, oldest first. */
  function KeyAfterAll(stored: Option<string>, keys: seq<string>): Option<string>
  {
    if |keys| == 0 then stored
    else KeyAfterSet(KeyAfterAll(stored, keys[..|keys| - 1]), keys[|keys| - 1])
  }

  /** The key store: the framework's persisted value for this cog. */
  class KeyStore {
    var key: Option<string>

    /** A fresh store holds no key. */
    constructor ()
      ensures key == None
    {
      key := None;
    }

    /**
      `setwolframapi`: a non-empty key overwrites the store and is
      acknowledged; an empty one changes nothing and sends nothing.
     */
    method SetKey(k: string) returns (sent: Option<string>)
      modifies this
      ensures key == KeyAfterSet(old(key), k)
      ensures sent == if k != "" then Some(Messages.KeySet) else None
    {
      if k != "" {
        key := Some(k);
        sent := Some(Messages.KeySet);
      } else {
        sent := None;
      }
    }
  }

  /** A series of calls with empty keys leaves the store as it was. */
  lemma {:induction false} EmptyKeysKeepStore(stored: Option<string>, keys: seq<string>)
    requires forall i | 0 <= i < |keys| :: keys[i] == ""
    ensures KeyAfterAll(stored, keys) == stored
  {
    if |keys| > 0 {
      EmptyKeysKeepStore(stored, keys[..|keys| - 1]);
    }
  }

  /** After a series of calls the store holds the last non-empty key given. */
  lemma {:induction false} LastNonEmptyKeyWins(stored: Option<string>, keys: seq<string>, j: nat)
    requires j < |keys| && keys[j] != ""
    requires forall i | j < i < |keys| :: keys[i] == ""
    ensures KeyAfterAll(stored, keys) == Some(keys[j])
  {
    if j < |keys| - 1 {
      var init := keys[..|keys| - 1];
      assert keys[|keys| - 1] == "";
      LastNonEmptyKeyWins(stored, init, j);
    }
  }

  /** Once a usable key is stored, no series of `setwolframapi` calls makes it unusable again. */
  lemma {:induction false} KeyNeverReverts(stored: Option<string>, keys: seq<string>)
    requires Commands.UsableKey(stored).Some?
    ensures Commands.UsableKey(KeyAfterAll(stored, keys)).Some?
  {
    if |keys| > 0 {
      KeyNeverReverts(stored, keys[..|keys| - 1]);
    }
  }

  /** After setting a non-empty key, `wolfram` sends a request carrying that key. */
  lemma AskUsesSetKey(stored: Option<string>, k: string, question: seq<string>)
    requires k != ""
    ensures Commands.AskStep(question, KeyAfterSet(stored, k))
         == Commands.Fetch(Commands.Request(Commands.QueryEndpoint,
              [("input", Join(" ", question)), ("appid", k)], [("user-agent", Commands.UserAgent)]))
  {
  }

  /** After setting a non-empty key, a `wolframsolve` with arguments puts that key first in its URL. */
  lemma SolveUsesSetKey(stored: Option<string>, k: string, arguments: seq<string>)
    requires k != "" && |arguments| > 0 && Commands.Separable(k, arguments)
    ensures var step := Commands.SolveStep(arguments, KeyAfterSet(stored, k));
      step.Fetch?
      && Split(step.req.url[|Commands.QueryEndpoint|..], "&")[0] == "appid=" + k
  {
    Commands.SolveUrlFields(k, arguments);
  }

  /** The same for `wolframimage`. */
  lemma ImageUsesSetKey(stored: Option<string>, k: string, arguments: seq<string>)
    requires k != "" && |arguments| > 0 && Commands.Separable(k, arguments)
    ensures var step := Commands.ImageStep(arguments, KeyAfterSet(stored, k));
      step.Fetch?
      && Split(step.req.url[|Commands.SimpleEndpoint|..], "&")[0] == "appid=" + k
  {
    Commands.ImageUrlFields(k, arguments);
  }
}
