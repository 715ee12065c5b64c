/** The `_req` object templates see (`generate_req`, index.js:168-201):
    request fields copied as they are, plus the query string, the search
    string and the normalised content type derived from them. */
module RequestContext {
  import opened Strings
  import opened Json
  import opened Optional

  /** The parts of an Express request that `generate_req` reads. Header
      names are lower case, as Express stores them. */
  datatype Request = Request(
    url: string,
    verb: string,
    path: string,
    originalUrl: string,
    headers: map<string, string>,
    hostname: string,
    protocol: string,
    ip: string,
    query: Node,
    body: Node)

  /** `_req`: what a generator function receives as `argv._req`. */
  datatype Context = Context(
    url: string,
    verb: string,
    query: Node,
    body: Node,
    path: string,
    header: map<string, string>,
    originalUrl: string,
    host: string,
    hostname: string,
    protocol: string,
    ip: string,
    querystring: string,
    search: string,
    contentType: string,
    params: map<string, string>)

  /** `originalUrl.substr(path.length + 1)`: the text after the path and one
      more character, or "" when the URL is not that long. */
  function QueryString(originalUrl: string, path: string): (q: string)
    ensures |path| + 1 <= |originalUrl| ==> |q| == |originalUrl| - |path| - 1
    ensures |originalUrl| < |path| + 1 ==> q == ""
    ensures originalUrl[|originalUrl| - |q|..] == q
  {
    if |path| + 1 <= |originalUrl| then originalUrl[|path| + 1..] else ""
  }

  /** A URL made of the path, `?` and a query gives back that query. */
  lemma QueryStringOfUrl(path: string, q: string)
    ensures QueryString(path + "?" + q, path) == q
  {
    assert (path + "?" + q)[|path| + 1..] == q;
  }

  /** The header value `t` is what index.js:185-190 leave in `content_type`
      for the raw header `h`: the trimmed text of the last `;`-segment of the
      lower-cased header that does not contain `charset`, or the whole
      lower-cased header when every segment contains it. */
  ghost predicate NormalisedType(h: string, t: string) {
    var segs := Split(ToLower(h), ';');
    if AllCharset(segs, |segs|) then t == ToLower(h)
    else exists j :: LastWithoutCharset(segs, |segs|, j) && t == Trim(segs[j])
  }

  /** Each of the first `i` segments contains `charset`. */
  ghost predicate AllCharset(segs: seq<string>, i: nat)
    requires i <= |segs|
  {
    forall j | 0 <= j < i :: Contains(segs[j], "charset")
  }

  /** Among the first `i` segments, `j` is the last one without `charset`. */
  ghost predicate LastWithoutCharset(segs: seq<string>, i: nat, j: int)
    requires i <= |segs|
  {
    0 <= j < i && !Contains(segs[j], "charset")
    && forall l | j < l < i :: Contains(segs[l], "charset")
  }

  /** index.js:184-190: a missing header reads as "". */
  method ContentType(header: Option<string>) returns (t: string)
    ensures header.None? ==> t == ""
    ensures header.Some? ==> NormalisedType(header.value, t)
  {
    var h := if header.Some? then header.value else "";
    t := Normalise(h);
    if header.None? {
      EmptyHeader(t);
    }
  }

  /** The accumulator loop of index.js:185-190. */
  method Normalise(h: string) returns (t: string)
    ensures NormalisedType(h, t)
  {
    var lowered := ToLower(h);
    t := lowered;
    var segs := Split(lowered, ';');
    ghost var last := -1;
    var i := 0;
    while i < |segs|
      invariant 0 <= i <= |segs|
      invariant if AllCharset(segs, i) then t == lowered
                else LastWithoutCharset(segs, i, last) && t == Trim(segs[last])
    {
      if !Contains(segs[i], "charset") {
        t := Trim(segs[i]);
        last := i;
        assert LastWithoutCharset(segs, i + 1, last);
      } else if !AllCharset(segs, i) {
        assert LastWithoutCharset(segs, i + 1, last);
      }
      i := i + 1;
    }
  }

  /** The empty header normalises to "". */
  lemma EmptyHeader(t: string)
    requires NormalisedType("", t)
    ensures t == ""
  {
    SplitFree(ToLower(""), ';');
    var segs := Split(ToLower(""), ';');
    assert !Contains(segs[0], "charset");
  }

  /** A single `type; charset=...` header gives the type, lower cased and
      trimmed. */
  lemma ContentTypeWithCharset(ty: string, rest: string)
    requires ';' !in ty && ';' !in rest
    requires Contains(ToLower(rest), "charset") && !Contains(ToLower(ty), "charset")
    ensures NormalisedType(ty + ";" + rest, Trim(ToLower(ty)))
  {
    var segs := TwoSegments(ty, rest);
    assert !AllCharset(segs, |segs|) && LastWithoutCharset(segs, |segs|, 0);
  }

  /** Two segments without `charset`: the accumulator is overwritten, so the
      second one is kept, not the first. */
  lemma ContentTypeLastWins(a: string, b: string)
    requires ';' !in a && ';' !in b
    requires !Contains(ToLower(a), "charset") && !Contains(ToLower(b), "charset")
    ensures NormalisedType(a + ";" + b, Trim(ToLower(b)))
  {
    var segs := TwoSegments(a, b);
    assert !AllCharset(segs, |segs|) && LastWithoutCharset(segs, |segs|, 1);
  }

  /** A header `a;b` with no other `;` lower-cases to two segments. */
  lemma TwoSegments(a: string, b: string) returns (segs: seq<string>)
    requires ';' !in a && ';' !in b
    ensures segs == Split(ToLower(a + ";" + b), ';') == [ToLower(a), ToLower(b)]
  {
    ToLowerAppend(a + ";", b);
    ToLowerAppend(a, ";");
    assert ToLower(";") == ";";
    ToLowerKeeps(a, ';');
    ToLowerKeeps(b, ';');
    SplitPrefix(ToLower(a), ToLower(b), ';');
    SplitFree(ToLower(b), ';');
    segs := Split(ToLower(a + ";" + b), ';');
  }

  /** A header whose only segment names the charset is kept whole: lower
      cased and not trimmed. */
  lemma OnlyCharsetKept(h: string)
    requires ';' !in ToLower(h) && Contains(ToLower(h), "charset")
    ensures NormalisedType(h, ToLower(h))
  {
    SplitFree(ToLower(h), ';');
  }

  /** The normalised type is determined by the header. */
  lemma NormalisedTypeUnique(h: string, t1: string, t2: string)
    requires NormalisedType(h, t1) && NormalisedType(h, t2)
    ensures t1 == t2
  {
    var segs := Split(ToLower(h), ';');
    if !AllCharset(segs, |segs|) {
      var j1 :| LastWithoutCharset(segs, |segs|, j1) && t1 == Trim(segs[j1]);
      var j2 :| LastWithoutCharset(segs, |segs|, j2) && t2 == Trim(segs[j2]);
    }
  }

  /** `generate_req(req, params)`: the copied fields, the derived strings,
      and `params || {}`. */
  method GenerateReq(req: Request, params: Option<map<string, string>>) returns (ctx: Context)
    ensures ctx.url == req.url && ctx.verb == req.verb && ctx.path == req.path
    ensures ctx.query == req.query && ctx.body == req.body
    ensures ctx.header == req.headers && ctx.originalUrl == req.originalUrl
    ensures ctx.host == req.hostname && ctx.hostname == req.hostname
    ensures ctx.protocol == req.protocol && ctx.ip == req.ip
    ensures ctx.querystring == QueryString(req.originalUrl, req.path)
    ensures ctx.search == "?" + ctx.querystring
    ensures "content-type" !in req.headers ==> ctx.contentType == ""
    ensures "content-type" in req.headers ==> NormalisedType(req.headers["content-type"], ctx.contentType)
    ensures ctx.params == if params.Some? then params.value else map[]
  {
    var qs := QueryString(req.originalUrl, req.path);
    var header := if "content-type" in req.headers then Some(req.headers["content-type"]) else None;
    var ty := ContentType(header);
    ctx := Context(
      req.url, req.verb, req.query, req.body, req.path, req.headers, req.originalUrl,
      req.hostname, req.hostname, req.protocol, req.ip,
      qs, "?" + qs, ty,
      if params.Some? then params.value else map[]);
  }
}
