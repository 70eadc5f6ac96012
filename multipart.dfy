/**
 * The multipart image extractor of the socket server,
 * `SocketServer.process_multipart_data` in main.py.
 *
 * Given the raw bytes of one request and a timestamp, it detects a
 * `multipart/form-data` body, takes the boundary from the first header line
 * that declares one, splits the request on `--` + boundary, and for every
 * part that carries an image content type writes the part's payload to a
 * file named `{timestamp}_image{ext}`. The writes are modelled by the
 * sequence of `ImageFile`s returned, in the order the source performs them.
 */
module Multipart {
  import opened Bytes

  datatype Option<T> = None | Some(value: T)

  /** One file the extractor writes into the request directory. */
  datatype ImageFile = ImageFile(name: string, data: seq<byte>)

  const MULTIPART_MARKER: seq<byte> := Ascii("multipart/form-data")
  const CONTENT_TYPE: seq<byte> := Ascii("Content-Type: ")
  const MULTIPART_HEADER: seq<byte> := CONTENT_TYPE + MULTIPART_MARKER
  const BOUNDARY_ATTR: seq<byte> := Ascii("boundary=")
  const DELIMITER_PREFIX: seq<byte> := Ascii("--")
  const IMAGE_HEADER: seq<byte> := Ascii("Content-Type: image/")
  const CRLF: seq<byte> := [13, 10]
  const HEADER_END: seq<byte> := CRLF + CRLF

  // ---------------------------------------------------------------------
  // Boundary discovery
  // ---------------------------------------------------------------------

  /**
   * A header line that declares the multipart boundary. Such a line always
   * holds the `multipart/form-data` marker the request is first tested for.
   */
  predicate IsBoundaryLine(line: seq<byte>)
    ensures IsBoundaryLine(line) ==> Contains(line, MULTIPART_MARKER)
  {
    if Contains(line, MULTIPART_HEADER) then
      HeaderHoldsMarker(line);
      Contains(line, BOUNDARY_ATTR)
    else false
  }

  /** `Content-Type: multipart/form-data` ends with `multipart/form-data`. */
  lemma HeaderHoldsMarker(line: seq<byte>)
    requires Contains(line, MULTIPART_HEADER)
    ensures Contains(line, MULTIPART_MARKER)
  {
    var i := Find(line, MULTIPART_HEADER);
    var n := |CONTENT_TYPE|;
    assert MULTIPART_HEADER[n..] == MULTIPART_MARKER;
    assert line[i + n..i + |MULTIPART_HEADER|] == line[i..i + |MULTIPART_HEADER|][n..];
    assert OccursAt(line, MULTIPART_MARKER, i + n);
  }

  /** The value a boundary line declares: the piece after `boundary=`, stripped. */
  function BoundaryValue(line: seq<byte>): (value: seq<byte>)
    requires Contains(line, BOUNDARY_ATTR)
    ensures value != [] ==> !IsSpace(value[0]) && !IsSpace(value[|value| - 1])
  {
    Strip(Split(line, BOUNDARY_ATTR)[1])
  }

  /**
   * The boundary the scan over the request lines settles on: the value of
   * the first boundary line, whether or not that value is empty.
   */
  function FirstBoundary(lines: seq<seq<byte>>): (boundary: Option<seq<byte>>)
    ensures boundary.Some? ==>
              exists k :: 0 <= k < |lines| && IsBoundaryLine(lines[k]) && boundary.value == BoundaryValue(lines[k])
  {
    if lines == [] then None
    else if IsBoundaryLine(lines[0]) then Some(BoundaryValue(lines[0]))
    else
      var rest := FirstBoundary(lines[1..]);
      assert rest.Some? ==> exists k :: 1 <= k < |lines| && IsBoundaryLine(lines[k]) && rest.value == BoundaryValue(lines[k]) by {
        if rest.Some? {
          var k :| 0 <= k < |lines[1..]| && IsBoundaryLine(lines[1..][k]) && rest.value == BoundaryValue(lines[1..][k]);
          assert lines[1..][k] == lines[k + 1];
        }
      }
      rest
  }

  /** The first boundary line decides the boundary; earlier lines do not stop the scan. */
  lemma {:induction false} FirstBoundaryAt(lines: seq<seq<byte>>, k: nat)
    requires k < |lines| && IsBoundaryLine(lines[k])
    requires forall j :: 0 <= j < k ==> !IsBoundaryLine(lines[j])
    ensures FirstBoundary(lines) == Some(BoundaryValue(lines[k]))
  {
    if k > 0 {
      assert !IsBoundaryLine(lines[0]);
      assert lines[1..][k - 1] == lines[k];
      assert forall j :: 0 <= j < k - 1 ==> lines[1..][j] == lines[j + 1];
      FirstBoundaryAt(lines[1..], k - 1);
      assert FirstBoundary(lines) == FirstBoundary(lines[1..]);
    }
  }

  /** The scan finds no boundary exactly when no line declares one. */
  lemma {:induction false} FirstBoundaryNone(lines: seq<seq<byte>>)
    ensures FirstBoundary(lines) == None <==> forall k :: 0 <= k < |lines| ==> !IsBoundaryLine(lines[k])
  {
    if lines != [] {
      FirstBoundaryNone(lines[1..]);
      assert forall k :: 1 <= k < |lines| ==> lines[k] == lines[1..][k - 1];
    }
  }

  /**
   * The boundary is the stripped segment after the first `boundary=` of the
   * line, up to a second `boundary=` if the line has one.
   */
  lemma BoundaryIsSegmentAfterAttribute(line: seq<byte>)
    requires Contains(line, BOUNDARY_ATTR)
    ensures var rest := line[Find(line, BOUNDARY_ATTR) + |BOUNDARY_ATTR|..];
            BoundaryValue(line) == Strip(if Contains(rest, BOUNDARY_ATTR) then rest[..Find(rest, BOUNDARY_ATTR)] else rest)
  {
    SplitSecondPiece(line, BOUNDARY_ATTR);
  }

  /** The `for line in lines` scan of main.py, leaving the loop at the first boundary line. */
  method FindBoundary(lines: seq<seq<byte>>) returns (boundary: Option<seq<byte>>)
    ensures boundary == FirstBoundary(lines)
  {
    boundary := None;
    var i := 0;
    while i < |lines|
      invariant 0 <= i <= |lines|
      invariant boundary == None
      invariant FirstBoundary(lines) == FirstBoundary(lines[i..])
    {
      var line := lines[i];
      if Contains(line, MULTIPART_HEADER) {
        if Contains(line, BOUNDARY_ATTR) {
          boundary := Some(Strip(Split(line, BOUNDARY_ATTR)[1]));
          return;
        }
      }
      assert lines[i..][1..] == lines[i + 1..];
      i := i + 1;
    }
  }

  // ---------------------------------------------------------------------
  // One part: payload, extension and the file it produces
  // ---------------------------------------------------------------------

  /**
   * The payload of a part: everything after its first blank line, with one
   * trailing CRLF removed when there is one; None when the part has no
   * blank line.
   */
  function Payload(part: seq<byte>): (body: Option<seq<byte>>)
    ensures body.Some? <==> Contains(part, HEADER_END)
  {
    var headerEnd := Find(part, HEADER_END);
    if headerEnd == -1 then None
    else
      var data := part[headerEnd + 4..];
      Some(if EndsWith(data, CRLF) then data[..|data| - 2] else data)
  }

  /** The payload in terms of the bytes after the part's first blank line. */
  lemma PayloadAfter(part: seq<byte>, data: seq<byte>)
    requires Find(part, HEADER_END) >= 0 && data == part[Find(part, HEADER_END) + 4..]
    ensures EndsWith(data, CRLF) ==> Payload(part) == Some(data[..|data| - 2])
    ensures !EndsWith(data, CRLF) ==> Payload(part) == Some(data)
  {
  }

  /** The first CRLF-delimited line of a part, from which the extension is chosen. */
  function FirstLine(part: seq<byte>): (line: seq<byte>)
    ensures |line| <= |part| && line == part[..|line|]
    ensures !Contains(line, CRLF)
  {
    SplitPiecesAreFree(part, CRLF);
    Split(part, CRLF)[0]
  }

  /** The file extension for a part whose first line is `line`. */
  function Extension(line: seq<byte>): (ext: string)
    ensures ext in {".jpg", ".png", ".gif", ".bin"}
  {
    if Contains(line, Ascii("image/jpeg")) || Contains(line, Ascii("image/jpg")) then ".jpg"
    else if Contains(line, Ascii("image/png")) then ".png"
    else if Contains(line, Ascii("image/gif")) then ".gif"
    else ".bin"
  }

  /** The name of an image file written for a request received at `timestamp`. */
  function ImageName(timestamp: string, ext: string): (name: string)
    ensures |name| == |timestamp| + 6 + |ext|
    ensures name[..|timestamp|] == timestamp && name[|timestamp|..|timestamp| + 6] == "_image" && name[|timestamp| + 6..] == ext
  {
    timestamp + "_image" + ext
  }

  /** A name the extractor may give a file for a request received at `timestamp`. */
  predicate IsImageName(name: string, timestamp: string) {
    name in {ImageName(timestamp, ".jpg"), ImageName(timestamp, ".png"), ImageName(timestamp, ".gif"), ImageName(timestamp, ".bin")}
  }

  /** The file one part produces, if any. */
  function PartImage(part: seq<byte>, timestamp: string): (file: Option<ImageFile>)
    ensures file.Some? ==> file.value.data != [] && IsImageName(file.value.name, timestamp)
  {
    if !Contains(part, IMAGE_HEADER) then None
    else match Payload(part)
      case None => None
      case Some(data) =>
        if data == [] then None
        else Some(ImageFile(ImageName(timestamp, Extension(FirstLine(part))), data))
  }

  /**
   * A part yields a file exactly when it names an image content type, has a
   * blank line, and a non-empty payload after trimming.
   */
  lemma PartImageSelection(part: seq<byte>, timestamp: string)
    ensures PartImage(part, timestamp).Some? <==>
              Contains(part, IMAGE_HEADER) && Contains(part, HEADER_END) && Payload(part).value != []
    ensures PartImage(part, timestamp).Some? ==>
              PartImage(part, timestamp).value == ImageFile(ImageName(timestamp, Extension(FirstLine(part))), Payload(part).value)
  {
  }

  /** The header block `head` ends at the blank line that follows it. */
  lemma FindAfterHeaders(head: seq<byte>, rest: seq<byte>)
    requires !Contains(head, HEADER_END)
    requires head != [] ==> head[|head| - 1] != 13 && head[|head| - 1] != 10
    ensures Find(head + HEADER_END + rest, HEADER_END) == |head|
  {
    var s := head + HEADER_END + rest;
    assert s[|head|..|head| + 4] == HEADER_END;
    assert OccursAt(s, HEADER_END, |head|);
    forall j | 0 <= j < |head|
      ensures !OccursAt(s, HEADER_END, j)
    {
      if j + 4 <= |head| {
        assert s[j..j + 4] == head[j..j + 4];
        assert !OccursAt(head, HEADER_END, j);
      } else {
        // the window at j covers the last header byte, which is neither CR nor LF
        var k := |head| - 1 - j;
        assert s[j..j + 4][k] == head[|head| - 1];
        assert HEADER_END[k] == 13 || HEADER_END[k] == 10;
      }
    }
  }

  /**
   * Round trip of the payload: a part built as header block, blank line,
   * body and the CRLF that precedes the next delimiter gives back exactly
   * the body, even when the body itself ends in CRLF; without that final
   * CRLF the body comes back untouched unless it ends in CRLF itself.
   */
  lemma PayloadOfPart(head: seq<byte>, body: seq<byte>)
    requires !Contains(head, HEADER_END)
    requires head != [] ==> head[|head| - 1] != 13 && head[|head| - 1] != 10
    ensures Payload(head + HEADER_END + body + CRLF) == Some(body)
    ensures !EndsWith(body, CRLF) ==> Payload(head + HEADER_END + body) == Some(body)
  {
    FindAfterHeaders(head, body + CRLF);
    assert head + HEADER_END + body + CRLF == head + HEADER_END + (body + CRLF);
    assert (head + HEADER_END + (body + CRLF))[|head| + 4..] == body + CRLF;
    FindAfterHeaders(head, body);
    assert (head + HEADER_END + body)[|head| + 4..] == body;
  }

  /** A payload that is nothing but the trailing CRLF produces no file. */
  lemma BareCrlfPayloadWritesNothing(head: seq<byte>, timestamp: string)
    requires !Contains(head, HEADER_END)
    requires head != [] ==> head[|head| - 1] != 13 && head[|head| - 1] != 10
    ensures PartImage(head + HEADER_END + CRLF, timestamp) == None
  {
    var part := head + HEADER_END + CRLF;
    PayloadOfPart(head, []);
    assert head + HEADER_END + [] == head + HEADER_END;
    assert Payload(part) == Some([]);
  }

  /** The first line of a part is everything before its first CRLF. */
  lemma FirstLineOf(line: seq<byte>, rest: seq<byte>)
    requires !Contains(line, CRLF)
    ensures FirstLine(line + CRLF + rest) == line
  {
    var s := line + CRLF + rest;
    assert s[|line|..|line| + 2] == CRLF;
    assert OccursAt(s, CRLF, |line|);
    forall j | 0 <= j < |line|
      ensures !OccursAt(s, CRLF, j)
    {
      if j + 2 <= |line| {
        assert s[j..j + 2] == line[j..j + 2];
        assert !OccursAt(line, CRLF, j);
      } else {
        // a CRLF at the last byte of the line would need an LF where the CR stands
        assert s[j..j + 2][1] == s[|line|] == 13;
      }
    }
    assert s[..|line|] == line;
  }

  /** The extension depends on the first line of the part and on nothing after it. */
  lemma ExtensionFromFirstLineOnly(line: seq<byte>, rest1: seq<byte>, rest2: seq<byte>)
    requires !Contains(line, CRLF)
    ensures Extension(FirstLine(line + CRLF + rest1)) == Extension(FirstLine(line + CRLF + rest2)) == Extension(line)
  {
    FirstLineOf(line, rest1);
    FirstLineOf(line, rest2);
  }

  /**
   * A part that starts right after its delimiter begins with CRLF, so its
   * first line is empty and its extension is `.bin` whatever content type
   * its headers declare.
   */
  lemma ExtensionOfPartAfterDelimiter(part: seq<byte>)
    requires |part| >= 2 && part[..2] == CRLF
    ensures FirstLine(part) == [] && Extension(FirstLine(part)) == ".bin"
  {
    assert OccursAt(part, CRLF, 0);
    assert Find(part, CRLF) == 0;
    assert Split(part, CRLF)[0] == [];
    assert !OccursAt([], Ascii("image/jpeg"), 0);
  }

  /**
   * An image part as a browser sends it starts with the CRLF that ends its
   * delimiter line; when it has a non-empty payload it is written under the
   * `.bin` name, whatever image type its headers declare, with exactly the
   * payload as contents.
   */
  lemma ImagePartAfterDelimiter(part: seq<byte>, body: seq<byte>, timestamp: string)
    requires |part| >= 2 && part[..2] == CRLF
    requires Contains(part, IMAGE_HEADER) && Payload(part) == Some(body) && body != []
    ensures PartImage(part, timestamp) == Some(ImageFile(ImageName(timestamp, ".bin"), body))
  {
    ExtensionOfPartAfterDelimiter(part);
  }

  // ---------------------------------------------------------------------
  // All parts, and the whole request
  // ---------------------------------------------------------------------

  /** The files the parts produce, in the order of the parts. */
  function ImagesOf(parts: seq<seq<byte>>, timestamp: string): (files: seq<ImageFile>)
    ensures |files| <= |parts|
    ensures forall f :: f in files ==> f.data != [] && IsImageName(f.name, timestamp)
  {
    if parts == [] then []
    else
      var earlier := ImagesOf(parts[..|parts| - 1], timestamp);
      match PartImage(parts[|parts| - 1], timestamp)
      case None => earlier
      case Some(file) => earlier + [file]
  }

  /** Appending one part appends the file it produces, if any. */
  lemma ImagesOfSnoc(parts: seq<seq<byte>>, i: nat, timestamp: string)
    requires i < |parts|
    ensures ImagesOf(parts[..i + 1], timestamp) ==
              ImagesOf(parts[..i], timestamp) + match PartImage(parts[i], timestamp) case None => [] case Some(f) => [f]
  {
    assert parts[..i + 1][..i] == parts[..i];
  }

  /** Files come out in part order: the files of `p + q` are those of `p`, then those of `q`. */
  lemma {:induction false} ImagesOfConcat(p: seq<seq<byte>>, q: seq<seq<byte>>, timestamp: string)
    ensures ImagesOf(p + q, timestamp) == ImagesOf(p, timestamp) + ImagesOf(q, timestamp)
    decreases |q|
  {
    if q != [] {
      var q' := q[..|q| - 1];
      ImagesOfConcat(p, q', timestamp);
      assert (p + q)[..|p + q| - 1] == p + q';
      assert (p + q)[|p + q| - 1] == q[|q| - 1];
      var prefix := ImagesOf(p, timestamp);
      match PartImage(q[|q| - 1], timestamp)
      case None =>
        assert ImagesOf(p + q, timestamp) == ImagesOf(p + q', timestamp);
        assert ImagesOf(q, timestamp) == ImagesOf(q', timestamp);
      case Some(file) =>
        assert ImagesOf(p + q, timestamp) == ImagesOf(p + q', timestamp) + [file];
        assert ImagesOf(q, timestamp) == ImagesOf(q', timestamp) + [file];
        assert prefix + ImagesOf(q', timestamp) + [file] == prefix + (ImagesOf(q', timestamp) + [file]);
    } else {
      assert p + q == p;
    }
  }

  /** No deduplication: `n` copies of an image part give `n` files of the same name. */
  lemma {:induction false} RepeatedPartsRepeatImages(part: seq<byte>, timestamp: string, n: nat)
    requires PartImage(part, timestamp).Some?
    ensures ImagesOf(seq(n, _ => part), timestamp) == seq(n, _ => PartImage(part, timestamp).value)
  {
    if n > 0 {
      RepeatedPartsRepeatImages(part, timestamp, n - 1);
      assert seq(n, _ => part)[..n - 1] == seq(n - 1, _ => part);
      var file := PartImage(part, timestamp).value;
      assert seq(n, _ => file) == seq(n - 1, _ => file) + [file];
    }
  }

  /** The files written for one request received at `timestamp`. */
  function Extract(request: seq<byte>, timestamp: string): (files: seq<ImageFile>)
    ensures forall f :: f in files ==> f.data != [] && IsImageName(f.name, timestamp)
  {
    if !Contains(request, MULTIPART_MARKER) then []
    else match FirstBoundary(Split(request, CRLF))
      case None => []
      case Some(boundary) =>
        if boundary == [] then []
        else ImagesOf(Split(request, DELIMITER_PREFIX + boundary), timestamp)
  }

  /** A request without the `multipart/form-data` marker produces no file. */
  lemma ExtractNeedsMarker(request: seq<byte>, timestamp: string)
    requires !Contains(request, MULTIPART_MARKER)
    ensures Extract(request, timestamp) == []
  {
  }

  /** A request none of whose lines declares a boundary produces no file. */
  lemma ExtractNeedsBoundaryLine(request: seq<byte>, timestamp: string)
    requires forall k :: 0 <= k < |Split(request, CRLF)| ==> !IsBoundaryLine(Split(request, CRLF)[k])
    ensures Extract(request, timestamp) == []
  {
    FirstBoundaryNone(Split(request, CRLF));
  }

  /**
   * When the first boundary line declares an empty (all-whitespace) value,
   * the request produces no file, even if a later line declares a usable
   * boundary: the scan has already stopped.
   */
  lemma ExtractEmptyBoundary(request: seq<byte>, timestamp: string, k: nat)
    requires var lines := Split(request, CRLF);
             k < |lines| && IsBoundaryLine(lines[k]) && BoundaryValue(lines[k]) == []
             && forall j :: 0 <= j < k ==> !IsBoundaryLine(lines[j])
    ensures Extract(request, timestamp) == []
  {
    FirstBoundaryAt(Split(request, CRLF), k);
  }

  /**
   * With the marker present and a non-empty boundary `b` on the first
   * boundary line, the files are those of the pieces of the request split
   * on `--` + `b`, in order.
   */
  lemma ExtractSplitsOnFirstBoundary(request: seq<byte>, timestamp: string, k: nat)
    requires Contains(request, MULTIPART_MARKER)
    requires var lines := Split(request, CRLF);
             k < |lines| && IsBoundaryLine(lines[k]) && BoundaryValue(lines[k]) != []
             && forall j :: 0 <= j < k ==> !IsBoundaryLine(lines[j])
    ensures var b := BoundaryValue(Split(request, CRLF)[k]);
            Extract(request, timestamp) == ImagesOf(Split(request, DELIMITER_PREFIX + b), timestamp)
  {
    FirstBoundaryAt(Split(request, CRLF), k);
  }

  /**
   * The `for part in parts` loop of main.py: one file per image part with a
   * non-empty payload, in part order.
   */
  method SaveImages(parts: seq<seq<byte>>, timestamp: string) returns (files: seq<ImageFile>)
    ensures files == ImagesOf(parts, timestamp)
  {
    files := [];
    for i := 0 to |parts|
      invariant files == ImagesOf(parts[..i], timestamp)
    {
      var part := parts[i];
      ImagesOfSnoc(parts, i, timestamp);
      if Contains(part, IMAGE_HEADER) {
        var headerEnd := Find(part, HEADER_END);
        if headerEnd != -1 {
          var imageData := part[headerEnd + 4..];
          PayloadAfter(part, imageData);
          if EndsWith(imageData, CRLF) {
            imageData := imageData[..|imageData| - 2];
          }
          if imageData != [] {
            var ext := Extension(Split(part, CRLF)[0]);
            assert ext == Extension(FirstLine(part));
            files := files + [ImageFile(ImageName(timestamp, ext), imageData)];
          } else {
            assert PartImage(part, timestamp) == None;
          }
        }
      }
    }
    assert parts[..|parts|] == parts;
  }

  /**
   * `process_multipart_data`: the files written for one request, in the
   * order they are written.
   */
  method ProcessMultipartData(request: seq<byte>, timestamp: string) returns (files: seq<ImageFile>)
    ensures files == Extract(request, timestamp)
  {
    files := [];
    if Contains(request, MULTIPART_MARKER) {
      var lines := Split(request, CRLF);
      var boundary := FindBoundary(lines);
      if boundary.Some? && boundary.value != [] {
        var parts := Split(request, DELIMITER_PREFIX + boundary.value);
        files := SaveImages(parts, timestamp);
      }
    }
  }
}
