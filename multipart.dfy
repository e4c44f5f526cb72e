/** `build_multipart_content` (github-upload.rb:77-101): a hand-written
    multipart/form-data serialiser in the style of section 5.1.1 of RFC 2046. */
module Multipart {
  import opened RubyStrings
  import opened UrlEncoding

  /** A field value: text (the integer 201 is joined as its text "201"), or a
      file, which stands for the `Pathname` methods `basename`, `type`, `size`
      and `read`. */
  datatype Value =
    | Text(text: string)
    | File(basename: string, mimeType: string, size: nat, content: string)

  /** One entry of the parameter hash, in the hash's insertion order. */
  datatype Param = Param(name: AsciiString, value: Value)

  const CRLF: string := "\r\n"

  /** The separator written before every part. */
  function Delimiter(boundary: string): string { "--" + boundary + CRLF }

  /** The text that ends the body. */
  function CloseDelimiter(boundary: string): string { "--" + boundary + "--" }

  function Disposition(name: AsciiString): string
  {
    "Content-Disposition: form-data; name=\"" + Urlencode(name) + "\""
  }

  /** The lines of one part, the `data` array of the loop body. */
  function PartLines(p: Param): seq<string>
  {
    match p.value
    case Text(v) => [Disposition(p.name), "", v]
    case File(basename, mimeType, size, content) =>
      [Disposition(p.name) + "; filename=\"" + basename + "\"",
       "Content-Type: " + mimeType,
       "Content-Length: " + Decimal(size),
       "Content-Transfer-Encoding: binary",
       "",
       content]
  }

  /** `data.join("\r\n") + "\r\n"`. */
  function Part(p: Param): (r: string)
    ensures EndsWith(r, CRLF)
  {
    Join(PartLines(p), CRLF) + CRLF
  }

  /** The parts, one per parameter, in parameter order. */
  function Parts(params: seq<Param>): (r: seq<string>)
    ensures |r| == |params|
  {
    if params == [] then [] else Parts(params[..|params| - 1]) + [Part(params[|params| - 1])]
  }

  /** The body the script sends: the first delimiter, the parts joined by the
      delimiter, and the close delimiter. */
  function Body(params: seq<Param>, boundary: string): string
  {
    Delimiter(boundary) + Join(Parts(params), Delimiter(boundary)) + CloseDelimiter(boundary)
  }

  /** The header hash returned beside the body. */
  function Headers(boundary: string): (r: map<string, string>)
    ensures r.Keys == {"Content-Type"}
    ensures r["Content-Type"] == "multipart/form-data; boundary=" + boundary
  {
    map["Content-Type" := "multipart/form-data; boundary=" + boundary]
  }

  /** The boundary: two draws of `rand(1000000)` around a fixed word. */
  function Boundary(r1: nat, r2: nat): string
  {
    Decimal(r1) + "-we-are-all-doomed-" + Decimal(r2)
  }

  /** A character the boundary is made of: a digit, a lowercase letter or `-`. */
  predicate BoundaryChar(c: char)
  {
    IsDigit(c) || 'a' <= c <= 'z' || c == '-'
  }

  /** The boundary holds only digits, lowercase letters and `-`, all of them
      unreserved, so it needs no quoting in the header and cannot hold CR, LF
      or a quote. */
  lemma BoundaryUnreserved(r1: nat, r2: nat)
    ensures forall i :: 0 <= i < |Boundary(r1, r2)| ==> BoundaryChar(Boundary(r1, r2)[i])
    ensures AllUnreserved(Boundary(r1, r2))
  {
    var a, w, b := Decimal(r1), "-we-are-all-doomed-", Decimal(r2);
    assert forall i :: 0 <= i < |w| ==> BoundaryChar(w[i]);
    var s := a + w + b;
    assert Boundary(r1, r2) == s;
    forall i | 0 <= i < |s| ensures BoundaryChar(s[i]) {
      if i < |a| {
        assert s[i] == a[i];
      } else if i < |a| + |w| {
        assert s[i] == w[i - |a|];
      } else {
        assert s[i] == b[i - |a| - |w|];
      }
    }
  }

  /** The body of the loop over the parameters: the lines of one part,
      pushed onto `data` one by one. */
  method CollectPartLines(p: Param) returns (data: seq<string>)
    ensures data == PartLines(p)
  {
    var disposition := Disposition(p.name);
    data := [];
    match p.value {
      case File(basename, mimeType, size, content) =>
        data := data + [disposition + "; filename=\"" + basename + "\""];
        data := data + ["Content-Type: " + mimeType];
        data := data + ["Content-Length: " + Decimal(size)];
        data := data + ["Content-Transfer-Encoding: binary"];
        data := data + [""];
        data := data + [content];
      case Text(text) =>
        data := data + [disposition];
        data := data + [""];
        data := data + [text];
    }
  }

  /** `build_multipart_content(params)`, with the two values `rand(1000000)`
      returns given as parameters: walks the parameters in order, collecting
      each part's lines and appending the joined part, then frames the parts. */
  method BuildMultipartContent(params: seq<Param>, r1: nat, r2: nat)
    returns (body: string, headers: map<string, string>)
    ensures body == Body(params, Boundary(r1, r2))
    ensures headers == Headers(Boundary(r1, r2))
  {
    var boundary := Boundary(r1, r2);
    var parts: seq<string> := [];
    var i := 0;
    while i < |params|
      invariant 0 <= i <= |params|
      invariant parts == Parts(params[..i])
    {
      var data := CollectPartLines(params[i]);
      assert params[..i + 1][..i] == params[..i];
      parts := parts + [Join(data, CRLF) + CRLF];
      i := i + 1;
    }
    assert params[..|params|] == params;
    body := Delimiter(boundary) + Join(parts, Delimiter(boundary)) + CloseDelimiter(boundary);
    headers := Headers(boundary);
  }

  /** The body opens with the first delimiter and ends with the close
      delimiter; with no parameters it is exactly those two. */
  lemma BodyFraming(params: seq<Param>, boundary: string)
    ensures |Body(params, boundary)| >= |Delimiter(boundary)| + |CloseDelimiter(boundary)|
    ensures Delimiter(boundary) <= Body(params, boundary)
    ensures EndsWith(Body(params, boundary), CloseDelimiter(boundary))
    ensures params == [] ==> Body(params, boundary) == "--" + boundary + "\r\n--" + boundary + "--"
  {
    var d, c, j := Delimiter(boundary), CloseDelimiter(boundary), Join(Parts(params), Delimiter(boundary));
    assert Body(params, boundary) == d + j + c;
    assert (d + j + c)[..|d|] == d;
    assert (d + j + c)[|d + j + c| - |c|..] == c;
  }

  /** A non-empty body is every part, in the caller's order, preceded by the
      delimiter, followed by the close delimiter. */
  lemma BodyAsDelimitedParts(params: seq<Param>, boundary: string)
    requires params != []
    ensures Body(params, boundary) == Delimited(Parts(params), Delimiter(boundary)) + CloseDelimiter(boundary)
  {
    JoinAsDelimited(Parts(params), Delimiter(boundary));
  }

  /** Adding a parameter at the end adds its part, after its own delimiter,
      just before the close delimiter, and leaves the text of every earlier
      part where it was. */
  lemma BodyAppend(params: seq<Param>, p: Param, boundary: string)
    ensures Body(params + [p], boundary)
      == Delimited(Parts(params), Delimiter(boundary)) + Delimiter(boundary) + Part(p) + CloseDelimiter(boundary)
  {
    var all := params + [p];
    assert all[..|all| - 1] == params;
    assert Parts(all)[..|Parts(all)| - 1] == Parts(params);
    BodyAsDelimitedParts(all, boundary);
  }

  /** The i-th part is the part of the i-th parameter. */
  lemma {:induction false} PartsAt(params: seq<Param>, i: nat)
    requires i < |params|
    ensures Parts(params)[i] == Part(params[i])
  {
    if i < |params| - 1 {
      PartsAt(params[..|params| - 1], i);
    }
  }

  lemma {:induction false} PartsConcat(xs: seq<Param>, ys: seq<Param>)
    ensures Parts(xs + ys) == Parts(xs) + Parts(ys)
  {
    if ys == [] {
      assert xs + ys == xs;
    } else {
      var init := ys[..|ys| - 1];
      assert (xs + ys)[..|xs + ys| - 1] == xs + init;
      PartsConcat(xs, init);
    }
  }

  /** The parts of a concatenation of parameter lists are laid out one list
      after the other: the serialiser never reorders fields. */
  lemma PartsInOrder(xs: seq<Param>, ys: seq<Param>, boundary: string)
    ensures Delimited(Parts(xs + ys), Delimiter(boundary))
      == Delimited(Parts(xs), Delimiter(boundary)) + Delimited(Parts(ys), Delimiter(boundary))
  {
    PartsConcat(xs, ys);
    DelimitedConcat(Parts(xs), Parts(ys), Delimiter(boundary));
  }

  /** A text part: the disposition line with the encoded name, an empty line,
      the value, and CRLF. */
  lemma TextPartShape(name: AsciiString, text: string)
    ensures Part(Param(name, Text(text)))
      == "Content-Disposition: form-data; name=\"" + Urlencode(name) + "\"" + "\r\n" + "\r\n" + text + "\r\n"
  {
    JoinThree(Disposition(name), "", text, CRLF);
  }

  /** A file part: the disposition line with the file name, the type, length
      and transfer-encoding headers, an empty line, the content unchanged, and CRLF. */
  lemma FilePartShape(name: AsciiString, basename: string, mimeType: string, size: nat, content: string)
    ensures Part(Param(name, File(basename, mimeType, size, content)))
      == "Content-Disposition: form-data; name=\"" + Urlencode(name) + "\"" + "; filename=\"" + basename + "\"" + "\r\n"
         + "Content-Type: " + mimeType + "\r\n"
         + "Content-Length: " + Decimal(size) + "\r\n"
         + "Content-Transfer-Encoding: binary" + "\r\n"
         + "\r\n"
         + content + "\r\n"
  {
    var first := Disposition(name) + "; filename=\"" + basename + "\"";
    var lines := [first, "Content-Type: " + mimeType, "Content-Length: " + Decimal(size), "Content-Transfer-Encoding: binary", "", content];
    assert PartLines(Param(name, File(basename, mimeType, size, content))) == lines;
    JoinSix(lines[0], lines[1], lines[2], lines[3], lines[4], lines[5], CRLF);
  }

  /** A file part ends with the file's content, unchanged, then CRLF. */
  lemma FilePartEndsWithContent(p: Param)
    requires p.value.File?
    ensures EndsWith(Part(p), p.value.content + CRLF)
  {
    var lines := PartLines(p);
    var head := Join(lines[..5], CRLF) + CRLF;
    assert Join(lines, CRLF) == Join(lines[..5], CRLF) + CRLF + lines[5];
    assert Part(p) == head + (p.value.content + CRLF);
  }

  /** When the last parameter is a file, the body ends with the file's
      content, unchanged, then CRLF and the close delimiter. */
  lemma BodyEndsWithFileContent(params: seq<Param>, boundary: string)
    requires params != [] && params[|params| - 1].value.File?
    ensures EndsWith(Body(params, boundary), params[|params| - 1].value.content + CRLF + CloseDelimiter(boundary))
  {
    var init, last := params[..|params| - 1], params[|params| - 1];
    var part, c := Part(last), last.value.content + CRLF;
    var front := Delimited(Parts(init), Delimiter(boundary)) + Delimiter(boundary);
    var body := Body(params, boundary);
    assert body == front + part + CloseDelimiter(boundary) by {
      BodyAsDelimitedParts(params, boundary);
      assert Parts(params)[..|params| - 1] == Parts(init);
    }
    assert EndsWith(part, c) by {
      FilePartEndsWithContent(last);
    }
    EndsWithInside(body, front, part, CloseDelimiter(boundary), c);
  }
}
