/**
 * The `submit` handler of the `getIssues` command: it types a `curl` line
 * that fetches the findings into the workspace, with the token and the URL
 * put in double quotes after escaping only their double quotes.
 */
module GetIssuesCommand {
  import opened Options
  import opened Text
  import opened Escaping
  import opened Effects
  import FixBugsCommand

  /** The name of the terminal `curl` runs in. */
  const ApiTerminal := "SonarQube API"

  /** `s.replace(/"/g, '\\"')`, applied to the token and to the URL. */
  function EscapeQuotes(s: string): string {
    ReplaceChar(s, '"', "\\\"")
  }

  /** Only the double quote gets a backslash in front; every other character is unchanged. */
  lemma EscapeQuotesMap(s: string)
    ensures EscapeQuotes(s) == EscapeSet(s, {'"'})
  {
    ReplaceFirst(s, '"');
  }

  /** The escaped text is one character longer per double quote. */
  lemma EscapeQuotesLength(s: string)
    ensures |EscapeQuotes(s)| == |s| + CountOf(s, {'"'})
  {
    EscapeQuotesMap(s);
  }

  /**
   * Deleting the backslash right before each double quote gives the text
   * back, although backslashes of the text itself are left as they are.
   */
  lemma EscapeQuotesRoundTrip(s: string)
    ensures UnescapeSet(EscapeQuotes(s), {'"'}) == s
  {
    EscapeQuotesMap(s);
    UnescapeEscape(s, {'"'});
  }

  /** A text without double quotes is passed through as it is, and only such a text. */
  lemma EscapeQuotesIdentity(s: string)
    ensures EscapeQuotes(s) == s <==> forall k :: 0 <= k < |s| ==> s[k] != '"'
  {
    EscapeQuotesLength(s);
    CountZero(s, {'"'});
    if forall k :: 0 <= k < |s| ==> s[k] != '"' {
      EscapeQuotesMap(s);
      NoEscapeNeeded(s, {'"'});
    }
  }

  lemma {:induction false} NoEscapeNeeded(s: string, cs: set<char>)
    requires forall k :: 0 <= k < |s| ==> s[k] !in cs
    ensures EscapeSet(s, cs) == s
  {
    if s != [] {
      assert forall k :: 0 <= k < |s| - 1 ==> s[1..][k] == s[k + 1];
      NoEscapeNeeded(s[1..], cs);
      assert [s[0]] + s[1..] == s;
    }
  }

  /**
   * The two escapes of the extension differ: the `curl` escape agrees with
   * the agent prompt escape exactly on texts without a backslash, dollar or
   * backtick, which the `curl` line leaves bare inside its double quotes.
   */
  lemma EscapeAsymmetry(s: string)
    ensures EscapeQuotes(s) == FixBugsCommand.EscapePrompt(s) <==>
      forall k :: 0 <= k < |s| ==> s[k] != '\\' && s[k] != '$' && s[k] != '`'
  {
    EscapeQuotesMap(s);
    FixBugsCommand.EscapePromptMap(s);
    EscapeSubset(s, {'"'}, FixBugsCommand.PromptSpecial);
    assert FixBugsCommand.PromptSpecial - {'"'} == {'\\', '$', '`'};
  }

  /** A dollar sign in a URL reaches the `curl` line bare, where the prompt escape would have escaped it. */
  lemma DollarLeftBare()
    ensures EscapeQuotes("a$b") == "a$b"
    ensures FixBugsCommand.EscapePrompt("a$b") == "a\\$b"
  {
    var s := "a$b";
    assert s[0] != '"' && s[1] != '"' && s[2] != '"';
    EscapeQuotesIdentity(s);
    FixBugsCommand.EscapePromptMap(s);
    EscapeDollar();
  }

  lemma EscapeDollar()
    ensures EscapeSet("a$b", FixBugsCommand.PromptSpecial) == "a\\$b"
  {
    var cs := FixBugsCommand.PromptSpecial;
    var s := "a$b";
    assert s[1..] == "$b" && s[1..][1..] == "b" && s[1..][1..][1..] == "";
    assert EscapeSet("b", cs) == ['b'] + EscapeSet("", cs) == "b";
    assert EscapeSet("$b", cs) == ['\\', '$'] + EscapeSet("b", cs) == "\\$b";
    assert EscapeSet(s, cs) == ['a'] + EscapeSet("$b", cs) == "a\\$b";
  }

  /** `path.join(workspaceFolder, 'sonarai-temp', 'sonar-issues.json')`, without normalisation. */
  function IssuesFile(workspace: string): string {
    workspace + "/sonarai-temp/sonar-issues.json"
  }

  /** The `curl` line: the escaped token with a colon, the escaped URL, and the unescaped output path. */
  function CurlLine(token: string, url: string, filePath: string): string {
    "curl -u \"" + EscapeQuotes(token) + ":\" \"" + EscapeQuotes(url) + "\" > \"" + filePath + "\""
  }

  /**
   * The `onDidReceiveMessage` handler for a message with the given command,
   * token and URL, and the first workspace folder if one is open.
   */
  function HandleMessage(command: string, token: string, url: string, workspace: Option<string>): seq<Effect> {
    if command != "submit" then []
    else if workspace.None? || workspace.value == "" then [ShowError("No workspace folder open")]
    else
      var filePath := IssuesFile(workspace.value);
      [SendText(ApiTerminal, CurlLine(token, url, filePath)),
       ShowInfo("Fetching SonarQube issues... Check the terminal for progress. Data will be saved to: " + filePath)]
  }

  /**
   * Without a workspace folder the handler shows an error and types
   * nothing; with one, it types exactly one line, the `curl` line writing
   * into the folder's issue file, and then tells where the data goes.
   */
  lemma SubmitGuard(token: string, url: string, workspace: Option<string>)
    ensures (exists e :: e in HandleMessage("submit", token, url, workspace) && e.SendText?) <==>
      workspace.Some? && workspace.value != ""
    ensures workspace.None? || workspace == Some("") ==>
      HandleMessage("submit", token, url, workspace) == [ShowError("No workspace folder open")]
    ensures workspace.Some? && workspace.value != "" ==>
      var effects := HandleMessage("submit", token, url, workspace);
      |effects| == 2 && effects[0] == SendText(ApiTerminal, CurlLine(token, url, IssuesFile(workspace.value))) &&
      effects[1] == ShowInfo("Fetching SonarQube issues... Check the terminal for progress. Data will be saved to: " +
        IssuesFile(workspace.value))
  {
    if workspace.Some? && workspace.value != "" {
      assert HandleMessage("submit", token, url, workspace)[0].SendText?;
    }
  }

  /**
   * The token and the URL reach the `curl` line as the text between the
   * first quotes (before the colon) and between the second pair, and each
   * unescapes to what was typed into the form.
   */
  lemma CurlCarriesCredentials(token: string, url: string, filePath: string)
    ensures var t, u := EscapeQuotes(token), EscapeQuotes(url);
      CurlLine(token, url, filePath) == "curl -u \"" + t + ":\" \"" + u + "\" > \"" + filePath + "\"" &&
      UnescapeSet(t, {'"'}) == token && UnescapeSet(u, {'"'}) == url
  {
    EscapeQuotesRoundTrip(token);
    EscapeQuotesRoundTrip(url);
  }
}
