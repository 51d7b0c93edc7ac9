/**
 * The handler registered for "/" (`MyHttpHandler`): serves the file
 * index.html, read afresh on every request, or a plain 404 when it is absent.
 * The file is an input: None when it does not exist, else its bytes.
 * The handler does not see the click counter at all.
 */
module RootHandler {
  import opened Wrappers
  import opened Http

  const NOT_FOUND_TEXT: string := "404 (Not Found)\n"
  const HTML_TYPE: Header := Header("Content-Type", "text/html")

  function HandleRoot(asset: Option<seq<byte>>): (r: Response)
    ensures Framed(r)
    ensures r.status == 200 <==> asset.Some?
    ensures asset.Some? ==> r.headers == [HTML_TYPE] && r.body == asset
    ensures asset.None? ==>
      r.status == 404 && r.headers == [] && r.body.Some? && BytesText(r.body.value) == NOT_FOUND_TEXT
  {
    match asset
    case None =>
      assert IsAscii(NOT_FOUND_TEXT);
      BytesTextOfAscii(NOT_FOUND_TEXT);
      Response(404, [], |NOT_FOUND_TEXT|, Some(AsciiBytes(NOT_FOUND_TEXT)))
    case Some(page) =>
      Response(200, [HTML_TYPE], |page|, Some(page))
  }
}
