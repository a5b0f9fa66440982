/** get_response: the story context built block by block, the fixed prompt
    template around it, and the call to the text generator with its canned
    apology when the call raises. */
module Prompting {
  import opened Text
  import opened Catalog

  /** The generator model the request names. */
  const ModelName: string := "gemini-2.0-flash"

  /** What the text generator gives back: a response text, or an exception. */
  datatype Generation = Generated(text: string) | Raised

  const Apology: string := "I’m having a little trouble finding stories right now. Please try again in a moment! 😊"

  const PromptHead: string :=
    "\nYou are the AnecdoteBox storyteller — warm, friendly and passionate about stories.\n" +
    "Your job is to recommend stories from AnecdoteBox to visitors.\n\nUser asked: "

  const PromptMiddle: string := "\n\nAvailable stories:\n"

  const PromptTail: string :=
    "\n\nInstructions:\n\n" +
    "- Respond warmly like a friendly storyteller\n" +
    "- Recommend the most relevant stories\n" +
    "- For each story mention the title and give a one line teaser\n" +
    "- Keep response concise and engaging\n" +
    "- End with a gentle question to keep conversation going\n" +
    "- If no stories match well, suggest they try a different mood or topic\n"

  /** The pieces of the context block of the story at index i, numbered
      i + 1: fixed labels alternating with the story's own text. */
  function BlockParts(i: nat, s: Story): seq<string> {
    ["\nStory ", NatToString(i + 1), ":\nTitle: ", s.title, "\nCategory: ", s.category,
     "\nSummary: ", s.summary, "\nTags: ", s.tags, "\nURL: ", s.url, "\n"]
  }

  function Block(i: nat, s: Story): string {
    Concat(BlockParts(i, s))
  }

  /** The blocks of a run of stories whose first one has index start, in
      list order. */
  function Blocks(start: nat, stories: seq<Story>): string {
    if stories == [] then ""
    else Blocks(start, stories[..|stories| - 1]) + Block(start + |stories| - 1, stories[|stories| - 1])
  }

  function Context(stories: seq<Story>): string {
    Blocks(0, stories)
  }

  function Prompt(userInput: string, context: string): string {
    Concat([PromptHead, userInput, PromptMiddle, context, PromptTail])
  }

  /** What get_response returns for a generator outcome. */
  function Reply(g: Generation): string {
    match g
    case Generated(text) => Strip(text)
    case Raised => Apology
  }

  // ---------------------------------------------------------------------
  // The operations

  /** The `story_context +=` loop over enumerate(stories). */
  method BuildContext(stories: seq<Story>) returns (context: string)
    ensures context == Context(stories)
  {
    context := "";
    var i := 0;
    while i < |stories|
      invariant 0 <= i <= |stories|
      invariant context == Context(stories[..i])
    {
      assert stories[..i + 1][..i] == stories[..i];
      context := context + Block(i, stories[i]);
      i := i + 1;
    }
    assert stories[..i] == stories;
  }

  /** get_response, with the generator passed in as a function of the model
      name and the prompt. */
  method GetResponse(userInput: string, stories: seq<Story>, generate: (string, string) -> Generation)
    returns (reply: string)
    ensures reply == Reply(generate(ModelName, Prompt(userInput, Context(stories))))
  {
    var storyContext := BuildContext(stories);
    var prompt := Prompt(userInput, storyContext);
    var outcome := generate(ModelName, prompt);
    match outcome {
      case Generated(text) =>
        reply := Strip(text);
      case Raised =>
        reply := Apology;
    }
  }

  // ---------------------------------------------------------------------
  // Properties of the context and the prompt

  /** The blocks of two consecutive runs are the blocks of the first run
      followed by those of the second, numbered on from where the first
      stopped. */
  lemma {:induction false} BlocksConcat(start: nat, a: seq<Story>, b: seq<Story>)
    ensures Blocks(start, a + b) == Blocks(start, a) + Blocks(start + |a|, b)
    decreases |b|
  {
    if b == [] {
      assert a + b == a;
    } else {
      var b' := b[..|b| - 1];
      assert (a + b)[..|a + b| - 1] == a + b';
      assert (a + b)[|a + b| - 1] == b[|b| - 1];
      BlocksConcat(start, a, b');
    }
  }

  /** The context holds one block per story, in list order: the blocks of
      the stories before index i, then the block of story i numbered i + 1,
      then the blocks of the stories after it. */
  lemma {:induction false} ContextAt(stories: seq<Story>, i: nat)
    requires i < |stories|
    ensures Context(stories) == Context(stories[..i]) + Block(i, stories[i]) + Blocks(i + 1, stories[i + 1..])
  {
    assert stories == stories[..i] + ([stories[i]] + stories[i + 1..]);
    BlocksConcat(0, stories[..i], [stories[i]] + stories[i + 1..]);
    BlocksConcat(i, [stories[i]], stories[i + 1..]);
    assert Blocks(i, [stories[i]]) == Block(i, stories[i]) by {
      assert [stories[i]][..0] == [];
    }
  }

  /** An empty story list gives an empty context, and every story adds a
      non-empty block. */
  lemma {:induction false} ContextLength(stories: seq<Story>)
    ensures Context(stories) == "" <==> stories == []
    ensures |Context(stories)| >= |stories|
    decreases |stories|
  {
    if stories != [] {
      ContextLength(stories[..|stories| - 1]);
    }
  }

  lemma {:induction false} ContainsInside(a: string, b: string, c: string, x: string)
    requires Contains(b, x)
    ensures Contains(a + b + c, x)
  {
    ContainsIff(b, x);
    var i :| OccursAt(b, x, i);
    assert (a + b + c)[|a| + i..|a| + i + |x|] == b[i..i + |x|];
    assert OccursAt(a + b + c, x, |a| + i);
    ContainsIff(a + b + c, x);
  }

  /** A story's block carries its number, whose digits read back as i + 1,
      right after the "Story " label, and holds its title, category,
      summary, tags and url. */
  lemma {:induction false} BlockHolds(i: nat, s: Story)
    ensures OccursAt(Block(i, s), NatToString(i + 1), |"\nStory "|)
    ensures ParseNat(NatToString(i + 1)) == i + 1
    ensures Contains(Block(i, s), s.title) && Contains(Block(i, s), s.category)
    ensures Contains(Block(i, s), s.summary) && Contains(Block(i, s), s.tags)
    ensures Contains(Block(i, s), s.url)
  {
    NatToStringRoundTrip(i + 1);
    var parts := BlockParts(i, s);
    ConcatPart(parts, 1);
    assert parts[..1] == ["\nStory "];
    ConcatSingle("\nStory ");
    ConcatContains(parts, 3);
    ConcatContains(parts, 5);
    ConcatContains(parts, 7);
    ConcatContains(parts, 9);
    ConcatContains(parts, 11);
  }

  /** Every story's title and url appear in the context built from a list
      of stories. */
  lemma {:induction false} ContextHolds(stories: seq<Story>, i: nat)
    requires i < |stories|
    ensures Contains(Context(stories), stories[i].title)
    ensures Contains(Context(stories), stories[i].url)
  {
    ContextAt(stories, i);
    BlockHolds(i, stories[i]);
    var pre := Context(stories[..i]);
    var post := Blocks(i + 1, stories[i + 1..]);
    ContainsInside(pre, Block(i, stories[i]), post, stories[i].title);
    ContainsInside(pre, Block(i, stories[i]), post, stories[i].url);
  }

  /** The prompt holds the user's input verbatim, right after the persona
      text, and the story context verbatim after the "Available stories"
      heading. */
  lemma {:induction false} PromptEmbeds(userInput: string, context: string)
    ensures OccursAt(Prompt(userInput, context), userInput, |PromptHead|)
    ensures OccursAt(Prompt(userInput, context), context, |PromptHead| + |userInput| + |PromptMiddle|)
    ensures OccursAt(Prompt(userInput, context), PromptHead, 0)
  {
    var h, m, t := PromptHead, PromptMiddle, PromptTail;
    FivePieces(h, userInput, m, context, t);
    assert Prompt(userInput, context) == Concat([h, userInput, m, context, t]);
  }

  /** Where the pieces of a five-piece concatenation sit. */
  lemma {:induction false} FivePieces(a: string, b: string, c: string, d: string, e: string)
    ensures OccursAt(Concat([a, b, c, d, e]), a, 0)
    ensures OccursAt(Concat([a, b, c, d, e]), b, |a|)
    ensures OccursAt(Concat([a, b, c, d, e]), d, |a| + |b| + |c|)
  {
    var parts := [a, b, c, d, e];
    ConcatPart(parts, 0);
    ConcatPart(parts, 1);
    ConcatPart(parts, 3);
    assert parts[..0] == [];
    assert parts[..1] == [a];
    ConcatSingle(a);
    assert parts[..3] == [a] + [b, c];
    ConcatAppend([a], [b, c]);
    assert [b, c] == [b] + [c];
    ConcatAppend([b], [c]);
    ConcatSingle(b);
    ConcatSingle(c);
  }

  lemma {:induction false} ConcatSingle(x: string)
    ensures Concat([x]) == x
  {
    assert [x][..0] == [];
  }

  /** A raised generator call always gives the fixed, non-empty apology;
      otherwise the reply is the generated text with surrounding whitespace
      trimmed. */
  lemma {:induction false} ReplyShape(g: Generation)
    ensures g.Raised? ==> Reply(g) == Apology && |Reply(g)| > 0
    ensures g.Generated? ==>
      exists i, j :: 0 <= i <= j <= |g.text| && Reply(g) == g.text[i..j] && AllSpace(g.text[..i]) && AllSpace(g.text[j..])
    ensures g.Generated? && Reply(g) != [] ==> !IsSpace(Reply(g)[0]) && !IsSpace(Reply(g)[|Reply(g)| - 1])
  {
    if g.Generated? {
      StripShape(g.text);
    }
  }
}
