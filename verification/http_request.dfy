/** One captured HTTP request as the replayer reads it: CRLF-separated lines, a request
    line of at least three space-separated fields, header lines up to the first blank
    line gathered into an insertion-ordered dictionary, and a body after the first empty
    line. Also the target URL and the curl command line built from a parsed request. */
module HttpRequest {
  import opened Wrappers
  import Seqs
  import opened Text
  import opened Whitespace

  const CRLF: string := "\r\n"

  /** The empty line that ends the header section. */
  const HEADER_END: string := "\r\n\r\n"

  // ---------------------------------------------------------------- dictionary

  /** A Python `dict` from header name to value: entries in insertion order. */
  type Headers = seq<(string, string)>

  function KeysOf(h: Headers): seq<string> {
    seq(|h|, k requires 0 <= k < |h| => h[k].0)
  }

  predicate DistinctKeys(h: Headers) {
    forall a, b :: 0 <= a < b < |h| ==> h[a].0 != h[b].0
  }

  /** The value stored under `key`, if any. */
  function Lookup(h: Headers, key: string): (r: Option<string>)
    ensures r.Some? <==> key in KeysOf(h)
    ensures r.Some? ==> exists k :: 0 <= k < |h| && h[k] == (key, r.value)
    decreases |h|
  {
    if h == [] then None
    else if h[0].0 == key then
      assert KeysOf(h)[0] == key;
      Some(h[0].1)
    else
      assert KeysOf(h) == [h[0].0] + KeysOf(h[1..]);
      var r := Lookup(h[1..], key);
      assert r.Some? ==> exists k :: 0 <= k < |h[1..]| && h[1..][k] == (key, r.value);
      r
  }

  /** Storing `value` under `key`: an existing key keeps its place, a new key goes to the end. */
  function Put(h: Headers, key: string, value: string): (r: Headers)
    ensures KeysOf(r) == if key in KeysOf(h) then KeysOf(h) else KeysOf(h) + [key]
    decreases |h|
  {
    if h == [] then [(key, value)]
    else if h[0].0 == key then
      KeysOfCons(h[0], h[1..]);
      KeysOfCons((key, value), h[1..]);
      assert h == [h[0]] + h[1..];
      [(key, value)] + h[1..]
    else
      var rest := Put(h[1..], key, value);
      KeysOfCons(h[0], h[1..]);
      KeysOfCons(h[0], rest);
      assert h == [h[0]] + h[1..];
      Seqs.ConcatAssoc([h[0].0], KeysOf(h[1..]), [key]);
      [h[0]] + rest
  }

  lemma KeysOfCons(p: (string, string), rest: Headers)
    ensures KeysOf([p] + rest) == [p.0] + KeysOf(rest)
  {
  }

  /** After storing, `key` maps to `value` and every other key to what it did. */
  lemma {:induction false} PutLookup(h: Headers, key: string, value: string, other: string)
    ensures Lookup(Put(h, key, value), other) == if other == key then Some(value) else Lookup(h, other)
    decreases |h|
  {
    if h != [] && h[0].0 != key {
      PutLookup(h[1..], key, value, other);
      assert Put(h, key, value)[1..] == Put(h[1..], key, value);
    }
  }

  /** Storing never makes a key appear twice. */
  lemma PutDistinct(h: Headers, key: string, value: string)
    requires DistinctKeys(h)
    ensures DistinctKeys(Put(h, key, value))
  {
    var r := Put(h, key, value);
    forall a, b | 0 <= a < b < |r|
      ensures r[a].0 != r[b].0
    {
      assert r[a].0 == KeysOf(r)[a] && r[b].0 == KeysOf(r)[b];
      if b < |h| {
        assert KeysOf(h)[a] == h[a].0 && KeysOf(h)[b] == h[b].0;
      } else {
        assert KeysOf(h)[a] == h[a].0;
      }
    }
  }

  // ---------------------------------------------------------------- header section

  /** A blank line: one that stripping empties, so whitespace only (see `BlankIsStrippedEmpty`). */
  predicate IsBlank(line: string) {
    AllIn(Spaces(PyStr), line)
  }

  lemma BlankIsStrippedEmpty(line: string)
    ensures IsBlank(line) <==> Trim(Spaces(PyStr), line) == ""
  {
  }

  /** The header lines: those after the request line up to, not including, the first
      blank one. */
  function Section(lines: seq<string>): (sec: seq<string>)
    ensures |sec| <= |lines| && sec == lines[..|sec|]
    ensures forall k :: 0 <= k < |sec| ==> !IsBlank(sec[k])
    ensures |sec| < |lines| ==> IsBlank(lines[|sec|])
    decreases |lines|
  {
    if lines == [] || IsBlank(lines[0]) then []
    else
      var rest := Section(lines[1..]);
      assert lines[1..][..|rest|] == lines[1..|rest| + 1];
      [lines[0]] + rest
  }

  /** A header line is split at its first colon, and name and value are stripped;
      a line without a colon is not a header. */
  function HeaderField(line: string): (f: Option<(string, string)>)
    ensures f.Some? <==> ':' in line
  {
    ContainsChar(line, ':');
    if Contains(line, ":") then
      SplitCharCount(line, ':', 1);
      var parts := Split(line, ":", 1);
      Some((Trim(Spaces(PyStr), parts[0]), Trim(Spaces(PyStr), parts[1])))
    else None
  }

  /** The field is the stripped text on either side of the first colon. */
  lemma HeaderFieldAtFirstColon(line: string, i: nat)
    requires i < |line| && line[i] == ':' && ':' !in line[..i]
    ensures HeaderField(line) == Some((Trim(Spaces(PyStr), line[..i]), Trim(Spaces(PyStr), line[i + 1..])))
  {
    assert line == line[..i] + [':'] + line[i + 1..];
    FirstCharAfter(line[..i], ':', line[i + 1..]);
    SplitAtFirst(line[..i], ":", line[i + 1..], 1);
  }

  /** How one header line is read; the program reads with `HeaderField`. The dictionary
      bookkeeping below is stated for any such reading. */
  type FieldReader = string -> Option<(string, string)>

  /** The loop over the header lines: stop at the first blank line, skip lines that are
      not fields, store each field, a later one overwriting an earlier one with the same name. */
  function ScanHeaders(lines: seq<string>, acc: Headers, field: FieldReader): Headers
    decreases |lines|
  {
    if lines == [] || IsBlank(lines[0]) then acc
    else
      match field(lines[0])
      case None => ScanHeaders(lines[1..], acc, field)
      case Some((name, value)) => ScanHeaders(lines[1..], Put(acc, name, value), field)
  }

  /** The value of the last field in `lines` whose name is `name`. */
  function LastValue(lines: seq<string>, name: string, field: FieldReader): Option<string>
    decreases |lines|
  {
    if lines == [] then None
    else
      var later := LastValue(lines[1..], name, field);
      if later.Some? then later
      else match field(lines[0])
        case Some((n, v)) => if n == name then Some(v) else None
        case None => None
  }

  /** Some line of `lines` is a field named `name`. */
  predicate NamedIn(lines: seq<string>, name: string, field: FieldReader) {
    exists k :: 0 <= k < |lines| && field(lines[k]).Some? && field(lines[k]).value.0 == name
  }

  /** The dictionary built by the loop, from the lines after the request line. */
  function ParseHeaders(lines: seq<string>): Headers {
    ScanHeaders(lines, [], HeaderField)
  }

  lemma {:induction false} ScanLookup(lines: seq<string>, acc: Headers, name: string, field: FieldReader)
    ensures Lookup(ScanHeaders(lines, acc, field), name) ==
            if LastValue(Section(lines), name, field).Some? then LastValue(Section(lines), name, field)
            else Lookup(acc, name)
    decreases |lines|
  {
    if lines != [] && !IsBlank(lines[0]) {
      var sec := Section(lines);
      assert sec[1..] == Section(lines[1..]);
      match field(lines[0])
      case None =>
        ScanLookup(lines[1..], acc, name, field);
      case Some((n, v)) =>
        ScanLookup(lines[1..], Put(acc, n, v), name, field);
        PutLookup(acc, n, v, name);
    }
  }

  lemma {:induction false} ScanDistinct(lines: seq<string>, acc: Headers, field: FieldReader)
    requires DistinctKeys(acc)
    ensures DistinctKeys(ScanHeaders(lines, acc, field))
    decreases |lines|
  {
    if lines != [] && !IsBlank(lines[0]) {
      match field(lines[0])
      case None =>
        ScanDistinct(lines[1..], acc, field);
      case Some((n, v)) =>
        PutDistinct(acc, n, v);
        ScanDistinct(lines[1..], Put(acc, n, v), field);
    }
  }

  lemma {:induction false} LastValueNamed(lines: seq<string>, name: string, field: FieldReader)
    ensures LastValue(lines, name, field).Some? <==> NamedIn(lines, name, field)
    decreases |lines|
  {
    if lines != [] {
      LastValueNamed(lines[1..], name, field);
      if NamedIn(lines[1..], name, field) {
        var k :| 0 <= k < |lines[1..]| && field(lines[1..][k]).Some? && field(lines[1..][k]).value.0 == name;
        assert lines[k + 1] == lines[1..][k];
      }
      if NamedIn(lines, name, field) && !NamedIn(lines[1..], name, field) {
        var k :| 0 <= k < |lines| && field(lines[k]).Some? && field(lines[k]).value.0 == name;
      }
    }
  }

  /** The names of the fields in `lines`, in line order, repeats included. */
  function FieldNames(lines: seq<string>, field: FieldReader): seq<string>
    decreases |lines|
  {
    if lines == [] then []
    else
      (match field(lines[0]) case Some((n, _)) => [n] case None => []) + FieldNames(lines[1..], field)
  }

  /** `keys` followed by each name of `names` that is not already there, at its first
      appearance: the key order of a dictionary that starts with `keys` and is then
      assigned to under `names` in turn. */
  function AddNew(keys: seq<string>, names: seq<string>): (r: seq<string>)
    ensures keys <= r
    ensures forall x :: x in r <==> x in keys || x in names
    decreases |names|
  {
    if names == [] then keys
    else AddNew(if names[0] in keys then keys else keys + [names[0]], names[1..])
  }

  /** The loop's dictionary lists the names of the header section in the order in which
      each first appears, after the names already present. */
  lemma {:induction false} ScanKeys(lines: seq<string>, acc: Headers, field: FieldReader)
    ensures KeysOf(ScanHeaders(lines, acc, field)) == AddNew(KeysOf(acc), FieldNames(Section(lines), field))
    decreases |lines|
  {
    if lines == [] || IsBlank(lines[0]) {
      assert Section(lines) == [];
    } else {
      var sec := Section(lines);
      var more := Section(lines[1..]);
      assert sec == [lines[0]] + more;
      FieldNamesCons(lines[0], more, field);
      var names := FieldNames(more, field);
      match field(lines[0])
      case None =>
        ScanKeys(lines[1..], acc, field);
        assert FieldNames(sec, field) == names by { Seqs.ConcatEmptyLeft(names); }
      case Some((n, v)) =>
        var next := Put(acc, n, v);
        assert ScanHeaders(lines, acc, field) == ScanHeaders(lines[1..], next, field);
        ScanKeys(lines[1..], next, field);
        assert FieldNames(sec, field) == [n] + names;
        AddNewCons(KeysOf(acc), n, names);
    }
  }

  lemma FieldNamesCons(line: string, more: seq<string>, field: FieldReader)
    ensures FieldNames([line] + more, field) ==
            (match field(line) case Some((n, _)) => [n] case None => []) + FieldNames(more, field)
  {
    assert ([line] + more)[1..] == more;
  }

  lemma AddNewCons(keys: seq<string>, n: string, rest: seq<string>)
    ensures AddNew(keys, [n] + rest) == AddNew(if n in keys then keys else keys + [n], rest)
  {
    assert ([n] + rest)[1..] == rest;
  }

  /** The header dictionary maps each name to the value of its LAST line in the header
      section and has no other names; each name appears once, and the names are in the
      order of their first appearance in the section. */
  lemma ParsedHeaders(lines: seq<string>, name: string)
    ensures Lookup(ParseHeaders(lines), name) == LastValue(Section(lines), name, HeaderField)
    ensures name in KeysOf(ParseHeaders(lines)) <==> NamedIn(Section(lines), name, HeaderField)
    ensures DistinctKeys(ParseHeaders(lines))
    ensures KeysOf(ParseHeaders(lines)) == AddNew([], FieldNames(Section(lines), HeaderField))
  {
    ScanKeys(lines, [], HeaderField);
    assert KeysOf([]) == [];
    ScanLookup(lines, [], name, HeaderField);
    ScanDistinct(lines, [], HeaderField);
    LastValueNamed(Section(lines), name, HeaderField);
  }

  // ---------------------------------------------------------------- request

  datatype Request = Request(verb: string, path: string, headers: Headers, body: Option<string>)

  datatype ParseError = MalformedRequestLine

  /** The request cut at every CRLF. */
  function Lines(req: string): (lines: seq<string>)
    ensures |lines| >= 1
  {
    Split(req, CRLF, -1)
  }

  /** The request line: the text before the first CRLF, or all of it. */
  lemma RequestLineIsFirstLine(req: string)
    ensures Lines(req)[0] == if Contains(req, CRLF) then req[..IndexOf(req, CRLF).value] else req
  {
    if Contains(req, CRLF) {
      SplitUnfold(req, CRLF, -1);
    }
  }

  /** When the request has an empty line, the text after the FIRST one, which may itself
      be empty. */
  function Body(req: string): (body: Option<string>)
    ensures body.Some? <==> Contains(req, HEADER_END)
  {
    if Contains(req, HEADER_END) then
      var parts := Split(req, HEADER_END, 1);
      Some(parts[1])
    else None
  }

  /** The body is everything after the first `\r\n\r\n`. */
  lemma BodyAfterFirstEmptyLine(req: string)
    requires Contains(req, HEADER_END)
    ensures var body := Body(req).value;
            var start := |req| - |body|;
            && start >= 4 && OccursAt(req, HEADER_END, start - 4)
            && req[start..] == body
            && forall j: nat :: j < start - 4 ==> !OccursAt(req, HEADER_END, j)
  {
    var i := IndexOf(req, HEADER_END).value;
    SplitUnfold(req, HEADER_END, 1);
    var parts := Split(req, HEADER_END, 1);
    assert parts[1] == req[i + 4..];
  }

  /** The first line split at its first two spaces gives method and path, and fails when it
      has fewer than two; the header dictionary and the body complete the request. */
  function ParseRequest(req: string): (r: Result<Request, ParseError>)
    ensures r.Failure? <==> |Split(Lines(req)[0], " ", 2)| < 3
  {
    var lines := Lines(req);
    var fields := Split(lines[0], " ", 2);
    if |fields| < 3 then Failure(MalformedRequestLine)
    else Success(Request(fields[0], fields[1], ParseHeaders(lines[1..]), Body(req)))
  }

  /** Parsing fails exactly when the request line has fewer than two spaces; otherwise
      method and path are its first two space-free fields. */
  lemma ParseRequestFields(req: string)
    ensures var r := ParseRequest(req);
            && (r.Failure? <==> multiset(Lines(req)[0])[' '] < 2)
            && (r.Success? ==>
                  && ' ' !in r.value.verb && ' ' !in r.value.path
                  && r.value.verb + " " + r.value.path + " " <= Lines(req)[0])
  {
    var line := Lines(req)[0];
    SplitCharCount(line, ' ', 2);
    if |Split(line, " ", 2)| == 3 {
      RequestLineFields(line);
    }
  }

  /** The first two of three fields are free of spaces and, with the spaces after them,
      begin the line. */
  lemma RequestLineFields(line: string)
    requires |Split(line, " ", 2)| == 3
    ensures var f := Split(line, " ", 2);
            ' ' !in f[0] && ' ' !in f[1] && f[0] + " " + f[1] + " " <= line
  {
    var f := Split(line, " ", 2);
    SplitPieces(line, " ", 2);
    ContainsChar(f[0], ' ');
    ContainsChar(f[1], ' ');
    JoinThree(f, " ");
    FieldsPrefix(f[0], f[1], f[2]);
  }

  lemma JoinThree(f: seq<string>, sep: string)
    requires |f| == 3
    ensures Join(f, sep) == f[0] + sep + (f[1] + sep + f[2])
  {
    assert f[1..][1..] == [f[2]];
    assert Join(f[1..], sep) == f[1] + sep + Join([f[2]], sep);
  }

  lemma FieldsPrefix(a: string, b: string, c: string)
    ensures a + " " + b + " " <= a + " " + (b + " " + c)
  {
    assert a + " " + (b + " " + c) == (a + " " + b + " ") + c;
  }

  /** A request line of method, path and version parses to that method and path, and
      the parsed request carries the dictionary and body the lines and text determine. */
  lemma ParseRequestLine(req: string, verb: string, path: string, rest: string)
    requires ' ' !in verb && ' ' !in path
    requires Lines(req)[0] == verb + " " + path + " " + rest
    ensures ParseRequest(req) == Success(Request(verb, path, ParseHeaders(Lines(req)[1..]), Body(req)))
  {
    SplitTwoFields(verb, path, rest, ' ');
  }

  // ---------------------------------------------------------------- curl command

  /** The target without its trailing slashes, then the path. */
  function FullUrl(target: string, path: string): (url: string)
    ensures |url| >= |path|
  {
    RStrip(target, '/') + path
  }

  /** The URL is the path after the target's longest prefix without trailing slashes. */
  lemma FullUrlShape(target: string, path: string)
    ensures var url := FullUrl(target, path);
            && url[|url| - |path|..] == path
            && var base := url[..|url| - |path|];
               && base <= target
               && (base == "" || base[|base| - 1] != '/')
               && forall k :: |base| <= k < |target| ==> target[k] == '/'
  {
    var base := RStrip(target, '/');
    assert (base + path)[..|base|] == base;
  }

  /** Any number of trailing slashes on the target is dropped. */
  lemma {:induction false} FullUrlDropsSlashes(base: string, slashes: nat, path: string)
    requires base == "" || base[|base| - 1] != '/'
    ensures FullUrl(base + seq(slashes, _ => '/'), path) == base + path
    decreases slashes
  {
    var s := base + seq(slashes, _ => '/');
    if slashes == 0 {
      assert s == base;
    } else {
      assert s[..|s| - 1] == base + seq(slashes - 1, _ => '/');
      FullUrlDropsSlashes(base, slashes - 1, path);
    }
  }

  /** `-H "name: value"` per header, in dictionary order. */
  function HeaderArgs(h: Headers): (args: seq<string>)
    ensures |args| == 2 * |h|
    decreases |h|
  {
    if h == [] then [] else ["-H", h[0].0 + ": " + h[0].1] + HeaderArgs(h[1..])
  }

  /** Header `k` becomes the option pair at `2k` and `2k + 1`. */
  lemma {:induction false} HeaderArgsLayout(h: Headers)
    ensures var args := HeaderArgs(h);
            forall k :: 0 <= k < |h| ==> args[2 * k] == "-H" && args[2 * k + 1] == h[k].0 + ": " + h[k].1
    decreases |h|
  {
    if h != [] {
      HeaderArgsLayout(h[1..]);
      var rest := HeaderArgs(h[1..]);
      var args := HeaderArgs(h);
      forall k | 1 <= k < |h|
        ensures args[2 * k] == "-H" && args[2 * k + 1] == h[k].0 + ": " + h[k].1
      {
        assert args[2 * k] == rest[2 * (k - 1)] && args[2 * k + 1] == rest[2 * (k - 1) + 1];
        assert h[k] == h[1..][k - 1];
      }
    }
  }

  /** Whether curl is given the body: only when there is one and it is not empty. */
  predicate SendsData(req: Request) {
    req.body.Some? && req.body.value != ""
  }

  /** `curl -X`, the method and the URL, then the header options, then `-d` and the body when `SendsData`. */
  function CurlArgv(req: Request, url: string): (argv: seq<string>)
    ensures |argv| == 4 + 2 * |req.headers| + (if SendsData(req) then 2 else 0)
  {
    ["curl", "-X", req.verb, url] + HeaderArgs(req.headers) + (if SendsData(req) then ["-d", req.body.value] else [])
  }

  /** The argument list starts with the method and URL, has one `-H` pair per header in
      dictionary order, and ends with `-d body` exactly when `SendsData`. */
  lemma CurlArgvLayout(req: Request, url: string)
    ensures var argv := CurlArgv(req, url);
            && argv[..4] == ["curl", "-X", req.verb, url]
            && (forall k :: 0 <= k < |req.headers| ==>
                  argv[4 + 2 * k] == "-H" && argv[5 + 2 * k] == req.headers[k].0 + ": " + req.headers[k].1)
            && (SendsData(req) ==> argv[|argv| - 2..] == ["-d", req.body.value])
  {
    var args := HeaderArgs(req.headers);
    var argv := CurlArgv(req, url);
    HeaderArgsLayout(req.headers);
    assert forall k :: 0 <= k < |args| ==> argv[4 + k] == args[k];
    assert forall k :: 0 <= k < |req.headers| ==> argv[4 + 2 * k] == args[2 * k] && argv[5 + 2 * k] == args[2 * k + 1];
  }

  /** After the method and URL, `-d` appears exactly when the body is sent. */
  lemma CurlDataFlag(req: Request, url: string)
    ensures var argv := CurlArgv(req, url);
            (exists k :: 4 <= k < |argv| && argv[k] == "-d") <==> SendsData(req)
  {
    var argv := CurlArgv(req, url);
    var h := req.headers;
    CurlArgvLayout(req, url);
    if SendsData(req) {
      assert argv[|argv| - 2] == "-d";
    } else {
      forall k | 4 <= k < |argv|
        ensures argv[k] != "-d"
      {
        var m := (k - 4) / 2;
        if k == 4 + 2 * m {
          assert argv[k] == "-H";
        } else {
          assert argv[k] == h[m].0 + ": " + h[m].1;
          HeaderLineIsNotFlag(h[m].0, h[m].1);
        }
      }
    }
  }

  lemma HeaderLineIsNotFlag(name: string, value: string)
    ensures name + ": " + value != "-d"
  {
    var line := name + ": " + value;
    if |line| == 2 {
      assert line[1] == ' ';
    }
  }
}
