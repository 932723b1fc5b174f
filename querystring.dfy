/** The key handling of the `clean_querystring` template filter: copy the
    request arguments, drop the listed keys, then overlay new values. */
module QueryString {

  /** Drops each of `keysToRemove` from a copy of `args` (a key that is
      absent is ignored, as `pop(key, None)` does), then lets every entry of
      `newValues` override what is left. */
  method CleanQuerystring(args: map<string, string>, keysToRemove: seq<string>, newValues: map<string, string>)
    returns (query: map<string, string>)
    ensures forall k :: k in args && k !in keysToRemove && k !in newValues ==> k in query && query[k] == args[k]
    ensures forall k :: k in newValues ==> k in query && query[k] == newValues[k]
    ensures forall k :: k in query ==> k in newValues || (k in args && k !in keysToRemove)
  {
    query := args;
    for i := 0 to |keysToRemove|
      invariant forall k :: k in query <==> k in args && k !in keysToRemove[..i]
      invariant forall k :: k in query ==> query[k] == args[k]
    {
      query := query - {keysToRemove[i]};
    }
    assert keysToRemove[..|keysToRemove|] == keysToRemove;
    query := query + newValues;
  }
}
