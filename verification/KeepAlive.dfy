/** Whether a connection may be used again after a response. */
module KeepAlive {
  import opened Wrappers
  import opened Text

  /** `connection_says_close` on the value of the `Connection` header. */
  predicate SaysClose(connection: Option<string>) {
    connection.Some? && AnyClose(Fields(connection.value))
  }

  predicate AnyClose(tokens: seq<string>) {
    exists i :: 0 <= i < |tokens| && SameIgnoringCase(Trim(tokens[i]), "close")
  }

  /** What a response says about its connection. */
  datatype Reply = Reply(readToClose: bool, connection: Option<string>)

  predicate Reusable(r: Reply) {
    !r.readToClose && !SaysClose(r.connection)
  }

  lemma AnyCloseConcat(s: seq<string>, t: seq<string>)
    ensures AnyClose(s + t) <==> AnyClose(s) || AnyClose(t)
  {
    if AnyClose(s) {
      var i :| 0 <= i < |s| && SameIgnoringCase(Trim(s[i]), "close");
      assert (s + t)[i] == s[i];
    }
    if AnyClose(t) {
      var i :| 0 <= i < |t| && SameIgnoringCase(Trim(t[i]), "close");
      assert (s + t)[|s| + i] == t[i];
    }
  }

  /** `close` counts wherever it stands in the token list. */
  lemma SaysCloseConcat(a: string, b: string)
    ensures SaysClose(Some(a + "," + b)) <==> SaysClose(Some(a)) || SaysClose(Some(b))
  {
    FieldsConcat(a, b);
    AnyCloseConcat(Fields(a), Fields(b));
  }
}
