/** The HTML response renderer (`create_response`) and the four fixed handlers of
    src/main.rs. */
module Render {

  import opened Text

  /** Rust's `u16`, the type of a status code. */
  type u16 = x: int | 0 <= x < 0x1_0000

  /** A handler's result: the body, its content type and the status code. */
  datatype Response = Response(body: string, contentType: string, status: u16)

  const TitleTag: string := "{title}"
  const ContentTag: string := "{content}"

  /** The template text before `{title}`, between the placeholders, and after `{content}`. */
  const Head: string := "\n<!DOCTYPE html>\n<html>\n<head>\n    <title>"
  const Middle: string := "</title>\n</head>\n<body>\n    <h1>"
  const Tail: string := "</h1>\n</body>\n</html>\n"

  /** The fixed page: a small HTML document whose `<title>` holds `{title}` and whose
      `<h1>` holds `{content}`. */
  const HtmlTemplate: string := Head + TitleTag + Middle + ContentTag + Tail

  const TextHtml: string := "text/html"

  /** First substitution over any template of this shape: `{title}` is replaced
      once, and the pieces around it, which hold no `{`, are copied unchanged. */
  lemma {:induction false} SubstituteTitleIn(head: string, middle: string, tail: string, title: string)
    requires '{' !in head && '{' !in middle && '{' !in tail
    ensures ReplaceAll(head + TitleTag + middle + ContentTag + tail, TitleTag, title)
         == head + title + middle + ContentTag + tail
  {
    var rest := middle + (ContentTag + tail);
    assert TitleTag[0] == '{';
    assert head + TitleTag + middle + ContentTag + tail == head + (TitleTag + rest);
    calc {
      ReplaceAll(head + (TitleTag + rest), TitleTag, title);
    == { ReplaceSkip(head, TitleTag + rest, TitleTag, title); }
      head + ReplaceAll(TitleTag + rest, TitleTag, title);
    == { ReplaceAtStart(rest, TitleTag, title); }
      head + (title + ReplaceAll(rest, TitleTag, title));
    == { ReplaceSkip(middle, ContentTag + tail, TitleTag, title);
         ContentTagIsNoTitleTag(tail, title); }
      head + (title + rest);
    }
    assert head + title + middle + ContentTag + tail == head + (title + rest);
  }

  /** `{content}` does not start with `{title}`, so the first pass copies it. */
  lemma ContentTagIsNoTitleTag(tail: string, title: string)
    requires '{' !in tail
    ensures ReplaceAll(ContentTag + tail, TitleTag, title) == ContentTag + tail
  {
    var s := ContentTag + tail;
    assert s[1] == 'c';
    assert !(TitleTag <= s);
    ReplaceNotAtStart(s, TitleTag, title);
    var after := ContentTag[1..];
    assert s[1..] == after + tail;
    assert '{' !in after;
    ReplaceSkip(after, tail, TitleTag, title);
    ReplaceSkip(tail, [], TitleTag, title);
    assert tail + [] == tail;
  }

  /** Second substitution over any template of this shape: `{content}` is replaced
      inside the title text `x` and once after `middle`. */
  lemma {:induction false} SubstituteContentIn(head: string, x: string, middle: string, tail: string, content: string)
    requires '{' !in head && '{' !in tail
    requires middle != [] && middle[0] !in ContentTag && '{' !in middle
    ensures ReplaceAll(head + x + middle + ContentTag + tail, ContentTag, content)
         == head + ReplaceAll(x, ContentTag, content) + middle + content + tail
  {
    var rest := middle + (ContentTag + tail);
    var y := ReplaceAll(x, ContentTag, content);
    assert head + x + middle + ContentTag + tail == head + (x + rest);
    calc {
      ReplaceAll(head + (x + rest), ContentTag, content);
    == { ReplaceSkip(head, x + rest, ContentTag, content); }
      head + ReplaceAll(x + rest, ContentTag, content);
    == { ReplaceConcat(x, rest, ContentTag, content); }
      head + (y + ReplaceAll(rest, ContentTag, content));
    == { ContentAfter(middle, tail, content); }
      head + (y + (middle + (content + tail)));
    }
    assert head + y + middle + content + tail == head + (y + (middle + (content + tail)));
  }

  /** After the title, the second pass copies `middle`, replaces the one `{content}`
      and copies `tail`. */
  lemma ContentAfter(middle: string, tail: string, content: string)
    requires '{' !in middle && '{' !in tail
    ensures ReplaceAll(middle + (ContentTag + tail), ContentTag, content) == middle + (content + tail)
  {
    ReplaceSkip(middle, ContentTag + tail, ContentTag, content);
    ReplaceAtStart(tail, ContentTag, content);
    ReplaceSkip(tail, [], ContentTag, content);
    assert tail + [] == tail;
  }

  /** The pieces of the fixed template satisfy both substitution lemmas. */
  lemma PiecesFree()
    ensures '{' !in Head && '{' !in Middle && '{' !in Tail
    ensures Middle != [] && Middle[0] !in ContentTag
  {
    HeadFree();
    MiddleFree();
    TailFree();
  }

  /** The template text before `{title}` holds no `{`. */
  lemma HeadFree()
    ensures '{' !in Head
  {
  }

  /** The template text between the placeholders holds no `{` and starts with a
      character that `{content}` lacks. */
  lemma MiddleFree()
    ensures '{' !in Middle && Middle != [] && Middle[0] !in ContentTag
  {
  }

  /** The template text after `{content}` holds no `{`. */
  lemma TailFree()
    ensures '{' !in Tail
  {
  }

  /** `create_response`: `{title}` is replaced first and then every `{content}`,
      including any that the title text brought in, so the body is the template
      with the title (after that second pass) and the content in place. The content
      type is always text/html and the status code is passed through. */
  function CreateResponse(title: string, content: string, status: u16): (r: Response)
    ensures r.contentType == TextHtml
    ensures r.status == status
    ensures r.body == Head + ReplaceAll(title, ContentTag, content) + Middle + content + Tail
  {
    PiecesFree();
    SubstituteTitleIn(Head, Middle, Tail, title);
    SubstituteContentIn(Head, title, Middle, Tail, content);
    Response(ReplaceAll(ReplaceAll(HtmlTemplate, TitleTag, title), ContentTag, content), TextHtml, status)
  }

  /** Each placeholder occurs exactly once in the template. */
  lemma PlaceholdersOnce()
    ensures Count(HtmlTemplate, TitleTag) == 1
    ensures Count(HtmlTemplate, ContentTag) == 1
  {
    TitleOnce();
    ContentOnce();
  }

  /** Replacing `{title}` by a text one character longer lengthens the template by
      exactly one character, so `{title}` occurs once. */
  lemma TitleOnce()
    ensures Count(HtmlTemplate, TitleTag) == 1
  {
    PiecesFree();
    var t := TitleTag + "x";
    SubstituteTitleIn(Head, Middle, Tail, t);
    ReplaceLength(HtmlTemplate, TitleTag, t);
  }

  /** The same argument for `{content}`: `{title}` does not contain it, so only the
      one after the middle piece is replaced. */
  lemma ContentOnce()
    ensures Count(HtmlTemplate, ContentTag) == 1
  {
    PiecesFree();
    var c := ContentTag + "x";
    TitleTagKept(c);
    SubstituteContentIn(Head, TitleTag, Middle, Tail, c);
    ReplaceLength(HtmlTemplate, ContentTag, c);
  }

  /** The second pass leaves `{title}` as it is. */
  lemma TitleTagKept(content: string)
    ensures ReplaceAll(TitleTag, ContentTag, content) == TitleTag
  {
    var tail := TitleTag[1..];
    assert TitleTag == ['{'] + tail;
    assert !(ContentTag <= TitleTag);
    ReplaceNotAtStart(TitleTag, ContentTag, content);
    ReplaceSkip(tail, [], ContentTag, content);
    assert tail + [] == tail;
  }

  /** A title free of `{content}` is embedded word for word. */
  lemma PlainSubstitution(title: string, content: string, status: u16)
    requires !Contains(title, ContentTag)
    ensures CreateResponse(title, content, status).body == Head + title + Middle + content + Tail
  {
    ReplaceAbsent(title, ContentTag, content);
  }

  /** The ordering of the two passes: a `{content}` inside the title is replaced by
      the content, while the content, whatever placeholders it holds (`{title}`
      included), is inserted as it is. */
  lemma SubstitutionOrder(content: string, status: u16)
    ensures CreateResponse(ContentTag, content, status).body == Head + content + Middle + content + Tail
    ensures CreateResponse("T", content, status).body == Head + "T" + Middle + content + Tail
  {
    assert ContentTag + [] == ContentTag;
    assert ([] + ContentTag)[|ContentTag|..] == [];
    ReplaceSkip("T", [], ContentTag, content);
  }

  /** The handlers registered by the server, and the not-found fallback. */
  datatype Handler = Hello | Goodbye | Submit | NotFound

  /** `handle_hello`, `handle_goodbye`, `handle_submit` and `handle_not_found`: each
      renders a fixed page; none looks at the request text. */
  function Handle(h: Handler, request: string): (r: Response)
    ensures r.contentType == TextHtml
    ensures r.status == 404 <==> h == NotFound
    ensures h != NotFound ==> r.status == 200
  {
    match h
    case Hello => CreateResponse("Hello Page", "Hello, Rust HTTP Server!", 200)
    case Goodbye => CreateResponse("Goodbye Page", "Goodbye, Rust HTTP Server!", 200)
    case Submit => CreateResponse("Submission Page", "Data submitted successfully!", 200)
    case NotFound => CreateResponse("404 - Not Found", "Not Found", 404)
  }

  /** The pages the handlers produce, with their title and text embedded word for word. */
  lemma HelloPage(request: string)
    ensures Handle(Hello, request).body == Head + "Hello Page" + Middle + "Hello, Rust HTTP Server!" + Tail
  {
    AbsentFirstChar("Hello Page", ContentTag);
    PlainSubstitution("Hello Page", "Hello, Rust HTTP Server!", 200);
  }

  lemma GoodbyePage(request: string)
    ensures Handle(Goodbye, request).body == Head + "Goodbye Page" + Middle + "Goodbye, Rust HTTP Server!" + Tail
  {
    AbsentFirstChar("Goodbye Page", ContentTag);
    PlainSubstitution("Goodbye Page", "Goodbye, Rust HTTP Server!", 200);
  }

  lemma SubmitPage(request: string)
    ensures Handle(Submit, request).body
         == Head + "Submission Page" + Middle + "Data submitted successfully!" + Tail
  {
    AbsentFirstChar("Submission Page", ContentTag);
    PlainSubstitution("Submission Page", "Data submitted successfully!", 200);
  }

  lemma NotFoundPage(request: string)
    ensures Handle(NotFound, request).body == Head + "404 - Not Found" + Middle + "Not Found" + Tail
  {
    AbsentFirstChar("404 - Not Found", ContentTag);
    PlainSubstitution("404 - Not Found", "Not Found", 404);
  }

}
