/**
  Parsing a server block, planning the certificate lines for it, and splicing them in: the
  block's own certificate lines go, the new ones follow its last server_name line.
 */
module NginxEdit {
  import opened Bytes
  import opened Text
  import opened NginxLines
  import opened NginxScan

  // ----- facts of a block -----------------------------------------------------------------------

  datatype Facts = Facts(names: seq<string>, ssl: bool, certs: seq<string>, keys: seq<string>, indent: string)

  function NamesOf(fs: seq<string>): seq<string> {
    if fs == [] then []
    else
      var f := TrimSet(fs[0], {';'});
      (if f != "" && f != "-" then [Unquote(f)] else []) + NamesOf(fs[1..])
  }

  function Digits(s: string, acc: nat): Option<nat> {
    if s == [] then Some(acc)
    else if '0' <= s[0] <= '9' then Digits(s[1..], 10 * acc + (s[0] as int - '0' as int))
    else None
  }

  /** Decimal parsing with an optional sign; at least one digit. */
  function Atoi(s: string): Option<int> {
    if s == [] then None
    else
      var body := if s[0] == '-' || s[0] == '+' then s[1..] else s;
      if body == [] then None
      else
        match Digits(body, 0)
        case None => None
        case Some(n) => if s[0] == '-' then Some(-(n as int)) else Some(n)
  }

  function AfterLastColon(s: string): string {
    if s == [] then s
    else if s[|s| - 1] == ':' then []
    else
      var rest := AfterLastColon(s[..|s| - 1]);
      rest + [s[|s| - 1]]
  }

  predicate SslWord(f: string) {
    f == "ssl" ||
    var port := if |f| >= 5 && f[..5] == "[::]:" then f[5..] else f;
    var n := Atoi(AfterLastColon(port));
    n == Some(443) || n == Some(8443)
  }

  predicate ListenIsSSL(words: seq<string>) {
    |words| >= 2 && exists k :: 1 <= k < |words| && SslWord(words[k])
  }

  function LineNames(l: Line): seq<string> { if Names(l) then NamesOf(l.words[1..]) else [] }

  function LineCerts(l: Line): seq<string> {
    if |l.words| > 1 && l.words[0] == "ssl_certificate" then [Unquote(l.words[1])] else []
  }

  function LineKeys(l: Line): seq<string> {
    if |l.words| > 1 && l.words[0] == "ssl_certificate_key" then [Unquote(l.words[1])] else []
  }

  predicate LineSsl(l: Line) { |l.words| > 0 && l.words[0] == "listen" && ListenIsSSL(l.words) }

  /** What the lines contribute, in order. */
  function Gather(ls: seq<Line>, f: Line -> seq<string>): seq<string> {
    if ls == [] then [] else Gather(ls[..|ls| - 1], f) + f(ls[|ls| - 1])
  }

  /** The indentation of the first indented directive. */
  function Indent(ls: seq<Line>): string {
    if ls == [] then ""
    else
      var before := Indent(ls[..|ls| - 1]);
      if before != "" then before else if ls[|ls| - 1].words != [] then ls[|ls| - 1].lead else ""
  }

  predicate SslIn(ls: seq<Line>) {
    ls != [] && (SslIn(ls[..|ls| - 1]) || LineSsl(ls[|ls| - 1]))
  }

  function Parse(region: seq<Line>): Facts {
    Facts(Gather(region, LineNames), SslIn(region), Gather(region, LineCerts), Gather(region, LineKeys), Indent(region))
  }

  /** One line's effect on the facts gathered so far. */
  function Absorb(f: Facts, l: Line): Facts {
    if l.words == [] then f
    else
      var g := if f.indent == "" then f.(indent := l.lead) else f;
      match l.words[0]
      case "server_name" => g.(names := g.names + NamesOf(l.words[1..]))
      case "listen" => g.(ssl := g.ssl || ListenIsSSL(l.words))
      case "ssl_certificate" => if |l.words| > 1 then g.(certs := g.certs + [Unquote(l.words[1])]) else g
      case "ssl_certificate_key" => if |l.words| > 1 then g.(keys := g.keys + [Unquote(l.words[1])]) else g
      case _ => g
  }

  lemma {:induction false} ParseSnoc(region: seq<Line>, l: Line)
    ensures Parse(region + [l]) == Absorb(Parse(region), l)
  {
    hide NamesOf, ListenIsSSL, Unquote;
    assert (region + [l])[..|region|] == region;
  }

  lemma NothingParsed()
    ensures Parse([]) == Facts([], false, [], [], "")
  {
  }

  /** One pass over the lines of a block. */
  method ParseBlock(ls: seq<Line>, r: Range) returns (f: Facts)
    requires r.first <= r.last < |ls|
    ensures f == Parse(ls[r.first..r.last + 1])
  {
    hide Parse, Absorb;
    f := Facts([], false, [], [], "");
    NothingParsed();
    assert ls[r.first..r.first] == [];
    for ln := r.first to r.last + 1
      invariant f == Parse(ls[r.first..ln])
    {
      ParseSnoc(ls[r.first..ln], ls[ln]);
      assert ls[r.first..ln + 1] == ls[r.first..ln] + [ls[ln]];
      f := Absorb(f, ls[ln]);
    }
  }

  // ----- the planned lines ----------------------------------------------------------------------

  /** The directive lines to insert: a listener when the block has no TLS one, then the certificate pair. */
  function Plan(f: Facts, cert: string, key: string): seq<Line> {
    var indent := if f.indent == "" then "    " else f.indent;
    (if f.ssl then [] else [Read(indent + "listen 443 ssl;")])
    + [Read(indent + ("ssl_certificate " + cert + ";")), Read(indent + ("ssl_certificate_key " + key + ";"))]
  }

  lemma {:induction false} IndentIsTabs(ls: seq<Line>)
    requires Faithful(ls)
    ensures Tabs(Indent(ls))
  {
    if ls != [] {
      IndentIsTabs(ls[..|ls| - 1]);
      LeadIsTabs(ls[|ls| - 1].text);
    }
  }

  /**
    The planned lines name no server and bring the block a TLS listener if it has none. They are
    neutral exactly when both paths are, and then carry exactly the certificate exactly when its
    path is plain, likewise the key.
   */
  lemma {:induction false} PlanFacts(region: seq<Line>, cert: string, key: string)
    requires Faithful(region)
    ensures
      var ins := Plan(Parse(region), cert, key);
      && (NeutralAll(ins) <==> NeutralPath(cert) && NeutralPath(key))
      && Gather(ins, LineNames) == [] && (Parse(region).ssl || SslIn(ins))
      && (NeutralPath(cert) ==> (Gather(ins, LineCerts) == [cert] <==> PlainPath(cert)))
      && (NeutralPath(key) ==> (Gather(ins, LineKeys) == [key] <==> PlainPath(key)))
  {
    hide Read, Gather, Parse, SslIn, LineNames, LineCerts, LineKeys, LineSsl, Neutral, PlainPath, NeutralPath;
    var f := Parse(region);
    ParseIndent(region);
    var indent := if f.indent == "" then "    " else f.indent;
    var a, b, l := PairLines(indent, cert, key);
    assert [] + [a, b] == [a, b] && [l] + [a, b] == [l, a, b];
    NeutralPair(a, b);
    NeutralThree(l, a, b);
    GatherPair(a, b, LineNames);
    GatherPair(a, b, LineCerts);
    GatherPair(a, b, LineKeys);
    GatherThree(l, a, b, LineNames);
    GatherThree(l, a, b, LineCerts);
    GatherThree(l, a, b, LineKeys);
    SslFirst(l, [a, b]);
  }

  lemma NeutralPair(a: Line, b: Line)
    ensures NeutralAll([a, b]) <==> Neutral(a) && Neutral(b)
  {
    hide Neutral;
    assert [a, b][0] == a && [a, b][1] == b;
  }

  lemma NeutralThree(l: Line, a: Line, b: Line)
    ensures NeutralAll([l, a, b]) <==> Neutral(l) && Neutral(a) && Neutral(b)
  {
    hide Neutral;
    assert [l, a, b][0] == l && [l, a, b][1] == a && [l, a, b][2] == b;
  }

  lemma {:induction false} PairLines(indent: string, cert: string, key: string) returns (a: Line, b: Line, l: Line)
    requires Tabs(indent)
    ensures a == Read(indent + ("ssl_certificate " + cert + ";")) && b == Read(indent + ("ssl_certificate_key " + key + ";"))
    ensures l == Read(indent + "listen 443 ssl;")
    ensures (Neutral(a) <==> NeutralPath(cert)) && (Neutral(b) <==> NeutralPath(key)) && Neutral(l) && LineSsl(l)
    ensures LineNames(a) == LineNames(b) == LineNames(l) == []
    ensures NeutralPath(cert) ==> (LineCerts(a) == [cert] <==> PlainPath(cert))
    ensures NeutralPath(key) ==> (LineKeys(b) == [key] <==> PlainPath(key))
    ensures LineCerts(b) == LineCerts(l) == [] && LineKeys(a) == LineKeys(l) == []
    ensures IsCert(a) && IsCert(b) && !IsCert(l) && !Names(l)
  {
    hide Read, Unquote, ListenIsSSL, NamesOf, Neutral, PlainPath, NeutralPath;
    a, b, l := Read(indent + ("ssl_certificate " + cert + ";")), Read(indent + ("ssl_certificate_key " + key + ";")),
      Read(indent + "listen 443 ssl;");
    CertLine(indent, "ssl_certificate", cert);
    CertLine(indent, "ssl_certificate_key", key);
    assert "ssl_certificate" + " " + cert + ";" == "ssl_certificate " + cert + ";";
    assert "ssl_certificate_key" + " " + key + ";" == "ssl_certificate_key " + key + ";";
    WrittenListen(indent);
    SslListen(l);
  }

  predicate Lowercase(s: string) { forall k :: 0 <= k < |s| ==> 'a' <= s[k] <= 'z' || s[k] == '_' }

  lemma PlainName(name: string)
    requires Lowercase(name) && name != "" && name != "server"
    ensures DirectiveName(name)
  {
    forall k | 0 <= k < |name| ensures !IsSpace(name[k]) {
    }
  }

  lemma CertNames()
    ensures DirectiveName("ssl_certificate") && DirectiveName("ssl_certificate_key")
  {
    hide DirectiveName;
    PlainName("ssl_certificate");
    PlainName("ssl_certificate_key");
  }

  lemma {:induction false} CertLine(indent: string, name: string, value: string)
    requires Tabs(indent) && name in {"ssl_certificate", "ssl_certificate_key"}
    ensures
      var l := Read(indent + (name + " " + value + ";"));
      && |l.words| > 0 && l.words[0] == name && (Neutral(l) <==> NeutralPath(value))
      && (NeutralPath(value) ==> (PlainPath(value) <==> |l.words| > 1 && Unquote(l.words[1]) == value))
  {
    hide Read, Fields, StripComment, Balance, Unquote, DirectiveName, PlainPath, NeutralPath, Neutral;
    CertNames();
    WrittenDirective(indent, name, value);
  }

  lemma {:induction false} ParseIndent(region: seq<Line>)
    requires Faithful(region)
    ensures Tabs(Parse(region).indent)
  {
    IndentIsTabs(region);
  }

  lemma {:induction false} SslListen(l: Line)
    requires l.words == ["listen", "443", "ssl"]
    ensures LineSsl(l) && !Names(l) && LineCerts(l) == [] && LineKeys(l) == []
  {
    assert SslWord(l.words[2]);
  }

  lemma {:induction false} GatherAppend(a: seq<Line>, b: seq<Line>, f: Line -> seq<string>)
    ensures Gather(a + b, f) == Gather(a, f) + Gather(b, f)
  {
    if b == [] {
      assert a + b == a;
    } else {
      assert (a + b)[..|a + b| - 1] == a + b[..|b| - 1];
      GatherAppend(a, b[..|b| - 1], f);
    }
  }

  lemma {:induction false} SslAppend(a: seq<Line>, b: seq<Line>)
    ensures SslIn(a + b) <==> SslIn(a) || SslIn(b)
  {
    if b == [] {
      assert a + b == a;
    } else {
      assert (a + b)[..|a + b| - 1] == a + b[..|b| - 1];
      SslAppend(a, b[..|b| - 1]);
    }
  }

  lemma {:induction false} SslFirst(l: Line, rest: seq<Line>)
    requires LineSsl(l)
    ensures SslIn([l] + rest)
  {
    SslAppend([l], rest);
  }

  lemma {:induction false} GatherOne(a: Line, f: Line -> seq<string>)
    ensures Gather([a], f) == f(a)
  {
    assert [a][..0] == [];
    assert Gather([a][..0], f) == [];
    assert [] + f(a) == f(a);
  }

  lemma {:induction false} GatherPair(a: Line, b: Line, f: Line -> seq<string>)
    ensures Gather([a, b], f) == f(a) + f(b)
  {
    hide Gather;
    GatherAppend([a], [b], f);
    GatherOne(a, f);
    GatherOne(b, f);
    assert [a] + [b] == [a, b];
  }

  lemma {:induction false} GatherThree(a: Line, b: Line, c: Line, f: Line -> seq<string>)
    ensures Gather([a, b, c], f) == f(a) + f(b) + f(c)
  {
    hide Gather;
    GatherAppend([a, b], [c], f);
    GatherPair(a, b, f);
    GatherOne(c, f);
    assert [a, b] + [c] == [a, b, c];
  }
}
