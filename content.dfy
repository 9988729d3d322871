/** The request and response content helpers of the chat route: inline `data:` URLs,
    the images carried by an OpenAI message or a `files` array, and the Markdown answer
    that links the generated images. */
module Content {
  import opened Common

  // ---------------------------------------------------------------------------
  // JSON values as the request body holds them
  // ---------------------------------------------------------------------------

  datatype Json =
    | JNull
    | JBool(b: bool)
    | JNum(n: int)
    | JStr(s: string)
    | JArr(items: seq<Json>)
    | JObj(fields: map<string, Json>)

  /** Python truthiness of a parsed JSON value. */
  predicate Truthy(j: Json)
  {
    match j
    case JNull => false
    case JBool(b) => b
    case JNum(n) => n != 0
    case JStr(s) => s != ""
    case JArr(items) => items != []
    case JObj(fields) => fields != map[]
  }

  /** `d.get(key, default)`. */
  function Get(fields: map<string, Json>, key: string, default: Json): Json
  {
    if key in fields then fields[key] else default
  }

  /** The exception a string method raises on a value that is not a string. */
  const AttributeErrorMessage := "AttributeError: object has no attribute 'startswith'"
  /** The exception `"\n".join` raises on a part that is not a string. */
  const JoinTypeErrorMessage := "TypeError: sequence item: expected str instance"

  // ---------------------------------------------------------------------------
  // parse_base64_data_url
  // ---------------------------------------------------------------------------

  /** An image of the request: inline base64 data with its MIME type, or a URL. */
  datatype InputImage = Base64Image(mimeType: string, data: string) | UrlImage(url: string)

  const DataScheme := "data:"
  const Base64Marker := ";base64,"

  /** The first index at or after `from` that holds `c`, or `|s|`. */
  function IndexFrom(s: string, c: char, from: nat): (k: nat)
    requires from <= |s|
    ensures from <= k <= |s|
    ensures k < |s| ==> s[k] == c
    ensures forall i :: from <= i < k ==> s[i] != c
    decreases |s| - from
  {
    if from == |s| || s[from] == c then from else IndexFrom(s, c, from + 1)
  }

  /** `re.match(r"data:([^;]+);base64,(.+)", s)`: the MIME type is the non-empty text up to
      the first `;`, which must open `;base64,`; the data is the non-empty text after it
      up to the first newline (`.` does not match a newline; the match is not anchored at
      the end). */
  function ParseBase64DataUrl(s: string): (r: Option<InputImage>)
    ensures r.Some? ==> r.value.Base64Image?
    ensures r.Some? ==>
      var img := r.value;
      && img.mimeType != [] && ';' !in img.mimeType
      && img.data != [] && '\n' !in img.data
      && StartsWith(s, DataScheme + img.mimeType + Base64Marker + img.data)
      && var n := |DataScheme + img.mimeType + Base64Marker + img.data|;
         n == |s| || s[n] == '\n'
  {
    if s == [] || !StartsWith(s, DataScheme) then None
    else
      var k := IndexFrom(s, ';', 5);
      if k == 5 || k + 8 > |s| || s[k..k + 8] != Base64Marker then None
      else
        var e := IndexFrom(s, '\n', k + 8);
        if e == k + 8 then None
        else
          var mime := s[5..k];
          var data := s[k + 8..e];
          assert s[..e] == DataScheme + mime + Base64Marker + data;
          Some(Base64Image(mime, data))
  }

  /** Every well-formed data URL is recognised, with its MIME type and data. */
  lemma ParseBase64DataUrlOfWellFormed(mime: string, data: string)
    requires mime != [] && ';' !in mime
    requires data != [] && '\n' !in data
    ensures ParseBase64DataUrl(DataScheme + mime + Base64Marker + data) == Some(Base64Image(mime, data))
  {
    var s := DataScheme + mime + Base64Marker + data;
    assert s[..5] == DataScheme;
    var k := IndexFrom(s, ';', 5);
    assert s[5 + |mime|] == ';';
    assert forall i :: 5 <= i < 5 + |mime| ==> s[i] == mime[i - 5];
    assert k == 5 + |mime|;
    assert s[k..k + 8] == Base64Marker;
    var e := IndexFrom(s, '\n', k + 8);
    assert forall i :: k + 8 <= i < |s| ==> s[i] == data[i - k - 8];
    assert e == |s|;
    assert s[5..k] == mime && s[k + 8..e] == data;
  }

  /** `parse_base64_data_url` on a JSON value: a falsy value gives nothing, a string is
      parsed, any other value makes `startswith` raise. */
  function ParseDataValue(v: Json): (r: Result<Option<InputImage>>)
    ensures r.Err? <==> Truthy(v) && !v.JStr?
    ensures r.Ok? && r.value.Some? ==> v.JStr? && r.value == ParseBase64DataUrl(v.s)
  {
    if !Truthy(v) then Ok(None)
    else if v.JStr? then Ok(ParseBase64DataUrl(v.s))
    else Err(AttributeErrorMessage)
  }

  // ---------------------------------------------------------------------------
  // extract_images_from_files_array
  // ---------------------------------------------------------------------------

  /** The image one item of a `files` array contributes. */
  function FileItemImage(item: Json): Result<Option<InputImage>>
  {
    if !item.JObj? || Get(item.fields, "type", JStr("")) != JStr("image") then Ok(None)
    else ParseDataValue(Get(item.fields, "data", JStr("")))
  }

  /** `extract_images_from_files_array`: the inline images of the items of type `image`,
      in order. Items that are not objects, or of another type, are skipped. */
  function ExtractImagesFromFilesArray(files: seq<Json>): (r: Result<seq<InputImage>>)
    ensures r.Ok? ==> |r.value| <= |files|
    ensures r.Ok? ==> forall i :: 0 <= i < |r.value| ==> r.value[i].Base64Image?
    ensures r.Err? <==> exists i :: 0 <= i < |files| && FileItemImage(files[i]).Err?
  {
    if files == [] then Ok([])
    else
      var rest := ExtractImagesFromFilesArray(files[1..]);
      assert forall i :: 1 <= i < |files| ==> files[i] == files[1..][i - 1];
      match FileItemImage(files[0])
      case Err(e) => Err(e)
      case Ok(None) => rest
      case Ok(Some(img)) => if rest.Err? then rest else Ok([img] + rest.value)
  }

  /** An inline image item of a `files` array. */
  function ImageFileItem(url: string): Json
  {
    JObj(map["type" := JStr("image"), "data" := JStr(url)])
  }

  function DataUrl(img: InputImage): string
    requires img.Base64Image?
  {
    DataScheme + img.mimeType + Base64Marker + img.data
  }

  /** A `files` array of well-formed inline images gives back exactly those images. */
  lemma {:induction false} FilesArrayOfImages(files: seq<Json>, images: seq<InputImage>)
    requires |files| == |images|
    requires forall i :: 0 <= i < |images| ==>
      && images[i].Base64Image?
      && images[i].mimeType != [] && ';' !in images[i].mimeType
      && images[i].data != [] && '\n' !in images[i].data
      && files[i] == ImageFileItem(DataUrl(images[i]))
    ensures ExtractImagesFromFilesArray(files) == Ok(images)
  {
    if images != [] {
      ParseBase64DataUrlOfWellFormed(images[0].mimeType, images[0].data);
      assert FileItemImage(files[0]) == Ok(Some(images[0]));
      FilesArrayOfImages(files[1..], images[1..]);
      var rest := ExtractImagesFromFilesArray(files[1..]);
      assert ExtractImagesFromFilesArray(files) == Ok([images[0]] + rest.value);
      assert images == [images[0]] + images[1..];
    }
  }

  // ---------------------------------------------------------------------------
  // extract_images_from_openai_content
  // ---------------------------------------------------------------------------

  /** The `text` value an item of type `text` contributes, or nothing. */
  function ItemText(item: Json): Option<Json>
  {
    if item.JObj? && Get(item.fields, "type", JStr("")) == JStr("text") then
      Some(Get(item.fields, "text", JStr("")))
    else None
  }

  /** The image an item of type `image_url` or `image` contributes. */
  function ItemImage(item: Json): Result<Option<InputImage>>
  {
    if !item.JObj? then Ok(None)
    else
      var kind := Get(item.fields, "type", JStr(""));
      if kind == JStr("image_url") then
        var obj := Get(item.fields, "image_url", JObj(map[]));
        if !obj.JStr? && !obj.JObj? then Err(AttributeErrorMessage)
        else
          var url := if obj.JStr? then obj else Get(obj.fields, "url", JStr(""));
          match ParseDataValue(url)
          case Err(e) => Err(e)
          case Ok(Some(img)) => Ok(Some(img))
          case Ok(None) => if url.JStr? && url.s != "" then Ok(Some(UrlImage(url.s))) else Ok(None)
      else if kind == JStr("image") && Truthy(Get(item.fields, "data", JNull)) then
        ParseDataValue(Get(item.fields, "data", JNull))
      else Ok(None)
  }

  /** The `text` values of the items, in order. */
  function TextParts(items: seq<Json>): (r: seq<Json>)
    ensures |r| <= |items|
  {
    if items == [] then []
    else
      var rest := TextParts(items[1..]);
      match ItemText(items[0])
      case Some(t) => [t] + rest
      case None => rest
  }

  /** The images of the items, in order; the first item that raises decides the error. */
  function ItemImages(items: seq<Json>): (r: Result<seq<InputImage>>)
    ensures r.Ok? ==> |r.value| <= |items|
  {
    if items == [] then Ok([])
    else
      match ItemImage(items[0])
      case Err(e) => Err(e)
      case Ok(head) =>
        var rest := ItemImages(items[1..]);
        if rest.Err? then rest
        else Ok((if head.Some? then [head.value] else []) + rest.value)
  }

  predicate AllStrings(parts: seq<Json>)
  {
    forall i :: 0 <= i < |parts| ==> parts[i].JStr?
  }

  function Texts(parts: seq<Json>): (r: seq<string>)
    requires AllStrings(parts)
    ensures |r| == |parts| && forall i :: 0 <= i < |r| ==> r[i] == parts[i].s
  {
    if parts == [] then [] else [parts[0].s] + Texts(parts[1..])
  }

  /** `extract_images_from_openai_content`: a string is the text and has no images; a
      value that is neither a string nor a list is shown with `render` (Python's `str`);
      a list gives the `\n`-joined texts of its text items and the images of its image
      items. The images are collected while the list is walked, so an image item that
      raises is reported before a text part that is not a string. */
  function ExtractImagesFromOpenAIContent(content: Json, render: Json -> string): (r: Result<(string, seq<InputImage>)>)
    ensures content.JStr? ==> r == Ok((content.s, []))
    ensures !content.JStr? && !content.JArr? ==> r == Ok((render(content), []))
    ensures content.JArr? ==>
      && (r.Ok? <==> ItemImages(content.items).Ok? && AllStrings(TextParts(content.items)))
      && (r.Ok? ==> r.value.1 == ItemImages(content.items).value
                    && r.value.0 == Join("\n", Texts(TextParts(content.items))))
  {
    match content
    case JStr(s) => Ok((s, []))
    case JArr(items) =>
      var images := ItemImages(items);
      var parts := TextParts(items);
      if images.Err? then Err(images.msg)
      else if !AllStrings(parts) then Err(JoinTypeErrorMessage)
      else Ok((Join("\n", Texts(parts)), images.value))
    case _ => Ok((render(content), []))
  }

  function TextItem(t: string): Json
  {
    JObj(map["type" := JStr("text"), "text" := JStr(t)])
  }

  /** A list of text items contributes its texts, all of them strings. */
  lemma {:induction false} TextItemsJoined(texts: seq<string>)
    ensures var items := seq(|texts|, i requires 0 <= i < |texts| => TextItem(texts[i]));
      && AllStrings(TextParts(items))
      && Texts(TextParts(items)) == texts
  {
    var items := seq(|texts|, i requires 0 <= i < |texts| => TextItem(texts[i]));
    if texts != [] {
      TextItemsJoined(texts[1..]);
      var rest := seq(|texts[1..]|, i requires 0 <= i < |texts[1..]| => TextItem(texts[1..][i]));
      assert items[1..] == rest;
      assert ItemText(items[0]) == Some(JStr(texts[0]));
      var parts := TextParts(rest);
      assert TextParts(items) == [JStr(texts[0])] + parts;
      assert ([JStr(texts[0])] + parts)[1..] == parts;
      assert Texts([JStr(texts[0])] + parts) == [texts[0]] + Texts(parts);
      assert texts == [texts[0]] + texts[1..];
    }
  }

  /** A list of text items contributes no image. */
  lemma {:induction false} TextItemsNoImages(texts: seq<string>)
    ensures ItemImages(seq(|texts|, i requires 0 <= i < |texts| => TextItem(texts[i]))) == Ok([])
  {
    var items := seq(|texts|, i requires 0 <= i < |texts| => TextItem(texts[i]));
    if texts != [] {
      TextItemsNoImages(texts[1..]);
      assert items[1..] == seq(|texts[1..]|, i requires 0 <= i < |texts[1..]| => TextItem(texts[1..][i]));
      assert ItemImage(items[0]) == Ok(None);
    }
  }

  /** With only text items the content is their newline-joined texts. */
  lemma TextOnlyContent(texts: seq<string>, render: Json -> string)
    ensures var items := seq(|texts|, i requires 0 <= i < |texts| => TextItem(texts[i]));
      ExtractImagesFromOpenAIContent(JArr(items), render) == Ok((Join("\n", texts), []))
  {
    TextItemsJoined(texts);
    TextItemsNoImages(texts);
  }

  /** An `image_url` item with a plain URL is passed on as a URL image. */
  lemma PlainImageUrl(url: string, render: Json -> string)
    requires url != [] && !StartsWith(url, DataScheme)
    ensures var item := JObj(map["type" := JStr("image_url"), "image_url" := JObj(map["url" := JStr(url)])]);
      ExtractImagesFromOpenAIContent(JArr([item]), render) == Ok(("", [UrlImage(url)]))
  {
    var item := JObj(map["type" := JStr("image_url"), "image_url" := JObj(map["url" := JStr(url)])]);
    assert ParseBase64DataUrl(url) == None;
    assert ItemImage(item) == Ok(Some(UrlImage(url)));
    assert [item][1..] == [];
    assert ItemImages([]) == Ok([]);
    assert [UrlImage(url)] + [] == [UrlImage(url)];
    assert ItemImages([item]) == Ok([UrlImage(url)]);
    assert ItemText(item) == None;
    assert TextParts([item]) == [];
    assert Texts([]) == [];
  }

  // ---------------------------------------------------------------------------
  // The answer: get_image_base_url and build_openai_response_content
  // ---------------------------------------------------------------------------

  datatype ChatImage = ChatImage(url: Option<string>, base64Data: Option<string>, mimeType: string,
                                 localPath: Option<string>, fileId: Option<string>, fileName: Option<string>)

  datatype ChatResponse = ChatResponse(text: string, images: seq<ChatImage>, thoughts: seq<string>)

  /** `get_image_base_url`: the configured `image_base_url`, stripped and ending in `/`,
      or the request's host URL when none is configured. */
  function GetImageBaseUrl(configured: string, fallbackHostUrl: string): (r: string)
    ensures Strip(configured) == [] ==> r == fallbackHostUrl
    ensures Strip(configured) != [] ==>
      && StartsWith(r, Strip(configured)) && EndsWith(r, "/")
      && |r| <= |Strip(configured)| + 1
      && (EndsWith(Strip(configured), "/") ==> r == Strip(configured))
  {
    var url := Strip(configured);
    if url != [] then
      if EndsWith(url, "/") then url else url + "/"
    else fallbackHostUrl
  }

  /** A base URL built from a configured one, configured again, is unchanged. */
  lemma GetImageBaseUrlIdempotent(configured: string, fallback1: string, fallback2: string)
    requires Strip(configured) != []
    ensures var b := GetImageBaseUrl(configured, fallback1); GetImageBaseUrl(b, fallback2) == b
  {
    var url := Strip(configured);
    StripBounds(configured);
    var b := GetImageBaseUrl(configured, fallback1);
    assert b[0] == url[0] && b[|b| - 1] == '/';
    LStripUnchanged(b);
    RStripUnchanged(b);
  }

  /** `url.split('/')[-1]`: the text after the last `/`. */
  function LastSegment(s: string): (r: string)
    ensures '/' !in r && EndsWith(s, r)
  {
    if s == [] then []
    else if s[|s| - 1] == '/' then []
    else
      var init := LastSegment(s[..|s| - 1]);
      assert s == s[..|s| - 1] + [s[|s| - 1]];
      init + [s[|s| - 1]]
  }

  lemma {:induction false} LastSegmentAfterSlash(prefix: string, name: string)
    requires '/' !in name
    ensures LastSegment(prefix + "/" + name) == name
    decreases |name|
  {
    if name != [] {
      var init := name[..|name| - 1];
      LastSegmentAfterSlash(prefix, init);
      assert (prefix + "/" + name)[..|prefix + "/" + name| - 1] == prefix + "/" + init;
      assert name == init + [name[|name| - 1]];
    } else {
      assert prefix + "/" + name == (prefix + "/");
    }
  }

  /** The links of the images that have a file name, under `base + "image/"`. */
  function ImageUrls(base: string, images: seq<ChatImage>): (r: seq<string>)
    ensures |r| <= |images|
  {
    if images == [] then []
    else
      var img := images[0];
      (if img.fileName.Some? && img.fileName.value != [] then [base + "image/" + img.fileName.value] else [])
      + ImageUrls(base, images[1..])
  }

  /** One Markdown image line, its alt text the last path segment of the link. */
  function MarkdownImage(url: string): string
  {
    "![" + LastSegment(url) + "](" + url + ")\n"
  }

  function MarkdownImages(urls: seq<string>): string
  {
    if urls == [] then "" else MarkdownImage(urls[0]) + MarkdownImages(urls[1..])
  }

  /** `build_openai_response_content`: the reply text, and when some generated image has
      a file name, a blank line (only after non-empty text) and one Markdown image line
      per such image. `configuredBaseUrl` is the `image_base_url` setting. */
  function BuildOpenAIResponseContent(response: ChatResponse, configuredBaseUrl: string, hostUrl: string): (r: string)
    ensures var urls := ImageUrls(GetImageBaseUrl(configuredBaseUrl, hostUrl), response.images);
      && StartsWith(r, response.text)
      && (urls == [] ==> r == response.text)
      && (urls != [] ==> EndsWith(r, MarkdownImages(urls)))
  {
    if response.images == [] then response.text
    else
      var urls := ImageUrls(GetImageBaseUrl(configuredBaseUrl, hostUrl), response.images);
      if urls == [] then response.text
      else
        var sep := if response.text != [] then "\n\n" else "";
        ConcatAffixes(response.text, sep, MarkdownImages(urls));
        response.text + sep + MarkdownImages(urls)
  }

  /** The line for an image whose file name has no `/` shows that file name as its alt
      text and links it under the base URL. */
  lemma MarkdownImageOfFile(base: string, name: string)
    requires '/' !in name
    ensures MarkdownImage(base + "image/" + name) == "![" + name + "](" + base + "image/" + name + ")\n"
  {
    assert base + "image/" + name == (base + "image") + "/" + name;
    LastSegmentAfterSlash(base + "image", name);
  }

  /** A reply with text and some named image: the text, a blank line, then the image
      lines. */
  lemma ResponseWithImages(response: ChatResponse, configured: string, host: string)
    requires response.text != []
    ensures var urls := ImageUrls(GetImageBaseUrl(configured, host), response.images);
      urls != [] ==>
        BuildOpenAIResponseContent(response, configured, host) == response.text + "\n\n" + MarkdownImages(urls)
  {
  }

  /** A reply with no text and some named image is the image lines alone, without the
      blank line. */
  lemma ImageOnlyResponse(response: ChatResponse, configured: string, host: string)
    requires response.text == []
    ensures var urls := ImageUrls(GetImageBaseUrl(configured, host), response.images);
      urls != [] ==> BuildOpenAIResponseContent(response, configured, host) == MarkdownImages(urls)
  {
    var urls := ImageUrls(GetImageBaseUrl(configured, host), response.images);
    if urls != [] {
      assert response.images != [];
      var images := MarkdownImages(urls);
      assert BuildOpenAIResponseContent(response, configured, host) == [] + "" + images;
      assert [] + "" + images == images;
    }
  }

  /** A reply with text and one named image: the text, a blank line, then the image. */
  lemma ResponseWithOneImage(text: string, img: ChatImage, thoughts: seq<string>, configured: string, host: string)
    requires text != [] && img.fileName.Some? && img.fileName.value != [] && '/' !in img.fileName.value
    ensures var base := GetImageBaseUrl(configured, host);
      var name := img.fileName.value;
      BuildOpenAIResponseContent(ChatResponse(text, [img], thoughts), configured, host)
        == text + "\n\n" + ("![" + name + "](" + base + "image/" + name + ")\n")
  {
    var base := GetImageBaseUrl(configured, host);
    var url := base + "image/" + img.fileName.value;
    assert [img][1..] == [];
    assert ImageUrls(base, [img]) == [url] + ImageUrls(base, []);
    assert [url][1..] == [];
    assert MarkdownImages([url]) == MarkdownImage(url) + MarkdownImages([]) == MarkdownImage(url);
    MarkdownImageOfFile(base, img.fileName.value);
    ResponseWithImages(ChatResponse(text, [img], thoughts), configured, host);
  }
}
