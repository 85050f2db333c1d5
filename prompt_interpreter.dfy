// The prompt interpreter: wraps the user's goal in the agent's standing orders.
// The standing orders ("prime directive") are a fixed text; the goal is pasted
// in verbatim after them, so nothing in the goal can move or alter the orders.
module PromptInterpreter {
  import opened Wrappers

  /** t occurs in s starting at index i. */
  predicate OccursAt(s: string, t: string, i: int)
  {
    0 <= i && i + |t| <= |s| && s[i..i + |t|] == t
  }

  /** The names of the custom actions the standing orders tell the agent to use. */
  const CheckPriceDealName := "check_price_deal"
  const PauseName := "pause_and_wait_for_user"
  const DownloadFileName := "download_file"
  const SaveDisplayedFileName := "save_displayed_file"
  const ClickAndUploadName := "click_and_upload"

  const Mission :=
    "You are an expert web automation assistant. "
    + "Your mission is to complete the user's goal efficiently. "
    + "You MUST follow these protocols:\n"

  const PriceHead :=
    "1. **Price Check Protocol**: "
    + "To check a product's price, "
    + "you must first navigate to the product page. "
    + "Then, use the built-in "
    + "`extract_structured_data(query='the price of the item')` "
    + "action to get the price text. "
    + "Finally, pass the extracted price text and the budget "
    + "to the `"
  const PriceTail := "` tool to get the deal status.\n"
  const PriceProtocol := PriceHead + CheckPriceDealName + PriceTail

  const LoginHead := "2. **Login Protocol**: " + "If a page requires login, " + "use the `"
  const LoginTail := "` tool.\n"
  const LoginProtocol := LoginHead + PauseName + LoginTail

  const DownloadIntro :=
    "3. **Download Protocol**: " + "To download, choose one of two methods:\n"

  const MethodAHead :=
    "   - **Method A (Standard Download):** "
    + "If you see a download button, "
    + "you MUST `click` it, "
    + "and then your VERY NEXT action must be `"
  const MethodATail := "()`.\n"
  const MethodA := MethodAHead + DownloadFileName + MethodATail

  const MethodBHead :=
    "   - **Method B (Direct Save):** "
    + "If the browser is displaying a file directly, "
    + "you MUST use `"
  const MethodBTail := "(filename='descriptive_name.ext')`.\n"
  const MethodB := MethodBHead + SaveDisplayedFileName + MethodBTail

  const UploadHead :=
    "4. **Upload Protocol (Final Version!)**: "
    + "To upload a file, "
    + "there is only ONE method. "
    + "You must use the single action `"
  const UploadTail :=
    "(selector_index=..., file_path=...)`. "
    + "This action does two things at once: "
    + "it clicks the upload button AND selects the file. "
    + "You must identify the index of the upload button "
    + "(e.g., 'File upload', 'Choose File') "
    + "and provide the absolute file path from your memory."
  const UploadProtocol := UploadHead + ClickAndUploadName + UploadTail

  /** The standing orders are the mission followed by the protocols in the order they are numbered. */
  function Directive(mission: string, price: string, login: string, downloadIntro: string,
                     methodA: string, methodB: string, upload: string): string
  {
    mission + price + login + downloadIntro + methodA + methodB + upload
  }

  const PrimeDirective := Directive(Mission, PriceProtocol, LoginProtocol, DownloadIntro, MethodA, MethodB, UploadProtocol)

  /** The prompt is a triple-quoted template whose lines are indented by four spaces. */
  const Indent := "    "
  const OrdersHeader := "--- STANDING ORDERS (Rules you MUST obey) ---"
  const GoalHeader := "--- USER'S CURRENT GOAL ---"
  const NewLine := "\n" + Indent
  const BlankLine := "\n" + Indent + "\n" + Indent

  /** The template around the standing orders and the goal. */
  function Template(directive: string, goal: string): string
  {
    NewLine + OrdersHeader + NewLine + directive + (BlankLine + GoalHeader + NewLine) + goal + NewLine
  }

  /** Everything before the goal: it does not depend on the goal. */
  const Preamble := PreambleWith(PrimeDirective)

  /** The part of the template before the goal, for given standing orders. */
  function PreambleWith(directive: string): string
  {
    NewLine + OrdersHeader + NewLine + directive + (BlankLine + GoalHeader + NewLine)
  }

  /** Everything after the goal: the template's last line break and indentation. */
  const Closing := NewLine

  /** Where the parts of the prompt begin. */
  const OrdersAt := |NewLine|
  const DirectiveAt := OrdersAt + |OrdersHeader| + |NewLine|
  const GoalHeaderAt := DirectiveAt + |PrimeDirective| + |BlankLine|
  const GoalAt := |Preamble|

  /** build_agent_prompt: the standing orders, then the goal verbatim, then the closing line. */
  function BuildAgentPrompt(userGoal: string): (r: string)
    ensures Frames(r, Preamble, userGoal, Closing)
  {
    Fill(Preamble, userGoal, Closing)
  }

  /** s is pre, then text starting right after it, then post and nothing more. */
  predicate Frames(s: string, pre: string, text: string, post: string)
  {
    |s| == |pre| + |text| + |post|
    && s[..|pre|] == pre
    && OccursAt(s, text, |pre|)
    && s[|pre| + |text|..] == post
  }

  /** s begins with pre and ends with post, and the two do not overlap. */
  predicate Encloses(s: string, pre: string, post: string)
  {
    |s| >= |pre| + |post| && s[..|pre|] == pre && s[|s| - |post|..] == post
  }

  /** A text put between a fixed beginning and a fixed end. */
  function Fill(pre: string, text: string, post: string): (r: string)
    ensures Frames(r, pre, text, post)
  {
    assert (pre + text + post)[..|pre|] == pre;
    assert (pre + text + post)[|pre|..|pre| + |text|] == text;
    pre + text + post
  }

  /** The text between a fixed beginning and a fixed end, if the input has both. */
  function Unfill(pre: string, post: string, s: string): (r: Option<string>)
    ensures r.Some? <==> Encloses(s, pre, post)
    ensures r.Some? ==> Frames(s, pre, r.value, post)
  {
    if |s| >= |pre| + |post| && s[..|pre|] == pre && s[|s| - |post|..] == post
    then
      assert s[|pre|..][..|s| - |post| - |pre|] == s[|pre|..|s| - |post|];
      Some(s[|pre|..|s| - |post|])
    else None
  }

  /** Unfill undoes Fill. */
  lemma UnfillFill(pre: string, text: string, post: string)
    ensures Unfill(pre, post, Fill(pre, text, post)) == Some(text)
  {
    var s := Fill(pre, text, post);
    assert s[|s| - |post|..] == post;
    assert s[|pre|..|s| - |post|] == text;
  }

  /** Fill undoes Unfill. */
  lemma FillUnfill(pre: string, post: string, s: string)
    requires Unfill(pre, post, s).Some?
    ensures Fill(pre, Unfill(pre, post, s).value, post) == s
  {
    var i, j := |pre|, |s| - |post|;
    assert s == s[..i] + s[i..j] + s[j..];
  }

  // ---- Facts about occurrences in concatenations ----

  lemma OccursLeft(a: string, b: string, t: string, i: int)
    requires OccursAt(a, t, i)
    ensures OccursAt(a + b, t, i)
  {
    assert (a + b)[i..i + |t|] == a[i..i + |t|];
  }

  lemma OccursRight(a: string, b: string, t: string, i: int)
    requires OccursAt(b, t, i)
    ensures OccursAt(a + b, t, |a| + i)
  {
    assert (a + b)[|a| + i..|a| + i + |t|] == b[i..i + |t|];
  }

  lemma OccursWhole(t: string)
    ensures OccursAt(t, t, 0)
  {
    assert t[0..|t|] == t;
  }

  /** A piece appended after x occurs right after x. */
  lemma OccursAppended(x: string, t: string)
    ensures OccursAt(x + t, t, |x|)
  {
    OccursWhole(t);
    OccursRight(x, t, t, 0);
  }

  /**
   * The layout of the template for any standing orders d and goal g: the
   * orders header, d, the goal header and g, in that order.
   */
  lemma {:induction false} TemplateLayout(d: string, g: string)
    ensures OccursAt(Template(d, g), OrdersHeader, |NewLine|)
    ensures OccursAt(Template(d, g), d, |NewLine| + |OrdersHeader| + |NewLine|)
    ensures OccursAt(Template(d, g), GoalHeader, |NewLine| + |OrdersHeader| + |NewLine| + |d| + |BlankLine|)
    ensures OccursAt(Template(d, g), g, |NewLine| + |OrdersHeader| + |NewLine| + |d| + |BlankLine| + |GoalHeader| + |NewLine|)
  {
    var p1 := NewLine + OrdersHeader;
    var p2 := p1 + NewLine;
    var p3 := p2 + d;
    var gap := BlankLine + GoalHeader + NewLine;
    var p4 := p3 + gap;
    var p5 := p4 + g;
    OccursAppended(NewLine, OrdersHeader);
    OccursLeft(p1, NewLine, OrdersHeader, |NewLine|);
    OccursLeft(p2, d, OrdersHeader, |NewLine|);
    OccursLeft(p3, gap, OrdersHeader, |NewLine|);
    OccursLeft(p4, g, OrdersHeader, |NewLine|);
    OccursLeft(p5, NewLine, OrdersHeader, |NewLine|);
    OccursAppended(p2, d);
    OccursLeft(p3, gap, d, |p2|);
    OccursLeft(p4, g, d, |p2|);
    OccursLeft(p5, NewLine, d, |p2|);
    OccursAppended(BlankLine, GoalHeader);
    OccursLeft(BlankLine + GoalHeader, NewLine, GoalHeader, |BlankLine|);
    OccursRight(p3, gap, GoalHeader, |BlankLine|);
    OccursLeft(p4, g, GoalHeader, |p3| + |BlankLine|);
    OccursLeft(p5, NewLine, GoalHeader, |p3| + |BlankLine|);
    OccursAppended(p4, g);
    OccursLeft(p5, NewLine, g, |p4|);
  }

  /** The prompt is the template filled with the standing orders and the goal. */
  lemma PromptIsTemplate(userGoal: string)
    ensures BuildAgentPrompt(userGoal) == Template(PrimeDirective, userGoal)
  {
  }

  /** The three sections of the prompt appear in order: the orders header,
      the standing orders, the goal header, and only then the user's goal. */
  lemma {:induction false} SectionsInOrder(userGoal: string)
    ensures OccursAt(BuildAgentPrompt(userGoal), OrdersHeader, OrdersAt)
    ensures OccursAt(BuildAgentPrompt(userGoal), PrimeDirective, DirectiveAt)
    ensures OccursAt(BuildAgentPrompt(userGoal), GoalHeader, GoalHeaderAt)
    ensures OccursAt(BuildAgentPrompt(userGoal), userGoal, GoalAt)
    ensures OrdersAt + |OrdersHeader| < DirectiveAt
    ensures DirectiveAt + |PrimeDirective| < GoalHeaderAt
    ensures GoalHeaderAt + |GoalHeader| < GoalAt
  {
    PromptIsTemplate(userGoal);
    TemplateLayout(PrimeDirective, userGoal);
  }

  /**
   * In standing orders whose protocols each put an action name between a
   * head and a tail, every name occurs right after its head.
   */
  lemma {:induction false} DirectiveLayout(
    mission: string,
    priceHead: string, priceName: string, priceTail: string,
    loginHead: string, loginName: string, loginTail: string,
    downloadIntro: string,
    aHead: string, aName: string, aTail: string,
    bHead: string, bName: string, bTail: string,
    uploadHead: string, uploadName: string, uploadTail: string)
    ensures var price := priceHead + priceName + priceTail;
            var login := loginHead + loginName + loginTail;
            var methodA := aHead + aName + aTail;
            var methodB := bHead + bName + bTail;
            var upload := uploadHead + uploadName + uploadTail;
            var d := Directive(mission, price, login, downloadIntro, methodA, methodB, upload);
            OccursAt(d, priceName, |mission| + |priceHead|)
            && OccursAt(d, loginName, |mission + price| + |loginHead|)
            && OccursAt(d, aName, |mission + price + login + downloadIntro| + |aHead|)
            && OccursAt(d, bName, |mission + price + login + downloadIntro + methodA| + |bHead|)
            && OccursAt(d, uploadName, |mission + price + login + downloadIntro + methodA + methodB| + |uploadHead|)
  {
    var price := priceHead + priceName + priceTail;
    var login := loginHead + loginName + loginTail;
    var methodA := aHead + aName + aTail;
    var methodB := bHead + bName + bTail;
    var upload := uploadHead + uploadName + uploadTail;
    var d1 := mission + price;
    var d2 := d1 + login;
    var d3 := d2 + downloadIntro;
    var d4 := d3 + methodA;
    var d5 := d4 + methodB;
    var i1 := |mission| + |priceHead|;
    var i2 := |d1| + |loginHead|;
    var i3 := |d3| + |aHead|;
    var i4 := |d4| + |bHead|;
    OccursInPiece(mission, priceHead, priceName, priceTail, price);
    OccursLeft(d1, login, priceName, i1);
    OccursLeft(d2, downloadIntro, priceName, i1);
    OccursLeft(d3, methodA, priceName, i1);
    OccursLeft(d4, methodB, priceName, i1);
    OccursLeft(d5, upload, priceName, i1);
    OccursInPiece(d1, loginHead, loginName, loginTail, login);
    OccursLeft(d2, downloadIntro, loginName, i2);
    OccursLeft(d3, methodA, loginName, i2);
    OccursLeft(d4, methodB, loginName, i2);
    OccursLeft(d5, upload, loginName, i2);
    OccursInPiece(d3, aHead, aName, aTail, methodA);
    OccursLeft(d4, methodB, aName, i3);
    OccursLeft(d5, upload, aName, i3);
    OccursInPiece(d4, bHead, bName, bTail, methodB);
    OccursLeft(d5, upload, bName, i4);
    OccursInPiece(d5, uploadHead, uploadName, uploadTail, upload);
  }

  /** An action name placed between a head and a tail occurs right after the head,
      wherever that piece is appended. */
  lemma OccursInPiece(x: string, head: string, name: string, tail: string, piece: string)
    requires piece == head + name + tail
    ensures OccursAt(x + piece, name, |x| + |head|)
  {
    OccursWhole(name);
    OccursRight(head, name, name, 0);
    OccursLeft(head + name, tail, name, |head|);
    OccursRight(x, piece, name, |head|);
  }

  /** The standing orders name every custom action the agent is told to use,
      each inside the protocol that calls for it. */
  lemma {:induction false} DirectiveNamesActions()
    ensures OccursAt(PrimeDirective, CheckPriceDealName, |Mission| + |PriceHead|)
    ensures OccursAt(PrimeDirective, PauseName, |Mission + PriceProtocol| + |LoginHead|)
    ensures OccursAt(PrimeDirective, DownloadFileName,
                     |Mission + PriceProtocol + LoginProtocol + DownloadIntro| + |MethodAHead|)
    ensures OccursAt(PrimeDirective, SaveDisplayedFileName,
                     |Mission + PriceProtocol + LoginProtocol + DownloadIntro + MethodA| + |MethodBHead|)
    ensures OccursAt(PrimeDirective, ClickAndUploadName,
                     |Mission + PriceProtocol + LoginProtocol + DownloadIntro + MethodA + MethodB| + |UploadHead|)
  {
    DirectiveLayout(Mission,
      PriceHead, CheckPriceDealName, PriceTail,
      LoginHead, PauseName, LoginTail,
      DownloadIntro,
      MethodAHead, DownloadFileName, MethodATail,
      MethodBHead, SaveDisplayedFileName, MethodBTail,
      UploadHead, ClickAndUploadName, UploadTail);
  }

  /** Recovers the goal from a prompt: the partner of BuildAgentPrompt (Unfill states what it finds). */
  function GoalOf(prompt: string): Option<string>
  {
    Unfill(Preamble, Closing, prompt)
  }

  /** Every goal survives the template unchanged. */
  lemma {:induction false} GoalRoundTrip(userGoal: string)
    ensures GoalOf(BuildAgentPrompt(userGoal)) == Some(userGoal)
  {
    UnfillFill(Preamble, userGoal, Closing);
  }

  /** A text that yields a goal is exactly the prompt built from that goal. */
  lemma {:induction false} GoalOfOnlyPrompts(prompt: string, userGoal: string)
    requires GoalOf(prompt) == Some(userGoal)
    ensures BuildAgentPrompt(userGoal) == prompt
  {
    FillUnfill(Preamble, Closing, prompt);
  }

  /** Different goals give different prompts. */
  lemma {:induction false} BuildAgentPromptInjective(g: string, h: string)
    requires BuildAgentPrompt(g) == BuildAgentPrompt(h)
    ensures g == h
  {
    GoalRoundTrip(g);
    GoalRoundTrip(h);
  }
}
