/**
  How one line of an nginx configuration reads: its brace balance outside comments, whether
  it opens a server block, and its directive words. `Read` computes these facts once per
  line; the block engine works on the results.
 */
module NginxLines {
  import opened Text

  /** One line with what the scanner sees in it. */
  datatype Line = Line(text: string, net: int, opens: bool, words: seq<string>, lead: string)

  /** Drops a '#' comment that is not inside single or double quotes. */
  function StripFrom(line: string, i: nat, inS: bool, inD: bool): string
    requires i <= |line|
    decreases |line| - i
  {
    if i == |line| then line
    else if line[i] == '\'' && !inD then StripFrom(line, i + 1, !inS, inD)
    else if line[i] == '"' && !inS then StripFrom(line, i + 1, inS, !inD)
    else if line[i] == '#' && !inS && !inD then line[..i]
    else StripFrom(line, i + 1, inS, inD)
  }

  function StripComment(line: string): string { StripFrom(line, 0, false, false) }

  function Balance(s: string): int {
    if s == [] then 0
    else (if s[0] == '{' then 1 else if s[0] == '}' then -1 else 0) + Balance(s[1..])
  }

  function WordLen(s: string): (n: nat)
    ensures n <= |s| && (s != [] && !IsSpace(s[0]) ==> n > 0)
  {
    if s == [] || IsSpace(s[0]) then 0 else 1 + WordLen(s[1..])
  }

  /** The words of a string, split around runs of white space. */
  function Fields(s: string): seq<string>
    decreases |s|
  {
    if s == [] then []
    else if IsSpace(s[0]) then Fields(s[1..])
    else [s[..WordLen(s)]] + Fields(s[WordLen(s)..])
  }

  function TrimSemicolon(s: string): string {
    if s != [] && s[|s| - 1] == ';' then s[..|s| - 1] else s
  }

  /** Trailing blanks and tabs only. */
  function TrimRightTabs(s: string): string {
    if s != [] && (s[|s| - 1] == ' ' || s[|s| - 1] == '\t') then TrimRightTabs(s[..|s| - 1]) else s
  }

  /** The run of blanks and tabs a line starts with; empty for a line of nothing else. */
  function LeadingSpace(s: string): string {
    var n := TabLen(s);
    if n == |s| then "" else s[..n]
  }

  function TabLen(s: string): (n: nat)
    ensures n <= |s| && forall k :: 0 <= k < n ==> s[k] == ' ' || s[k] == '\t'
  {
    if s != [] && (s[0] == ' ' || s[0] == '\t') then 1 + TabLen(s[1..]) else 0
  }

  /** Everything the scanner, the block parser and the splice look at in one line. */
  function Read(text: string): Line {
    var bare := StripComment(text);
    var stripped := Trim(bare);
    var first := Fields(stripped);
    Line(text, Balance(bare),
         |first| > 0 && first[0] == "server" && '{' in stripped,
         Fields(TrimSemicolon(stripped)),
         LeadingSpace(TrimRightTabs(bare)))
  }

  ghost predicate Faithful(lines: seq<Line>) {
    forall i :: 0 <= i < |lines| ==> lines[i] == Read(lines[i].text)
  }

  /** A line that neither moves the brace depth nor opens a block. */
  predicate Neutral(l: Line) { l.net == 0 && !l.opens }

  predicate Names(l: Line) { |l.words| > 0 && l.words[0] == "server_name" }

  predicate IsCert(l: Line) {
    |l.words| > 0 && (l.words[0] == "ssl_certificate" || l.words[0] == "ssl_certificate_key")
  }

  /** Strips characters of `cut` from both ends. */
  function TrimSet(s: string, cut: set<char>): string {
    if s == [] then s
    else if s[0] in cut then TrimSet(s[1..], cut)
    else if s[|s| - 1] in cut then TrimSet(s[..|s| - 1], cut)
    else s
  }

  function Unquote(s: string): string { TrimSet(s, {'"', '\''}) }

  // ----- the lines the installer writes ---------------------------------------------------------

  /** A path the installer can write as it is: one word, no comment in it, balanced, not quoted. */
  predicate PlainPath(p: string) {
    Word(p) && StripComment(p) == p && Balance(p) == 0 && Unquote(p) == p
  }

  /** A path whose line, comments cut, leaves the brace depth alone. */
  predicate NeutralPath(p: string) { Balance(StripComment(p)) == 0 }

  predicate Tabs(s: string) { forall k :: 0 <= k < |s| ==> s[k] == ' ' || s[k] == '\t' }

  predicate Word(s: string) { s != "" && forall k :: 0 <= k < |s| ==> !IsSpace(s[k]) }

  lemma {:induction false} NoCommentFrom(line: string, i: nat, inS: bool, inD: bool)
    requires i <= |line| && '#' !in line
    ensures StripFrom(line, i, inS, inD) == line
    decreases |line| - i
  {
    if i < |line| {
      NoCommentFrom(line, i + 1, !inS, inD);
      NoCommentFrom(line, i + 1, inS, !inD);
      NoCommentFrom(line, i + 1, inS, inD);
    }
  }

  lemma {:induction false} NoBraces(s: string)
    requires '{' !in s && '}' !in s
    ensures Balance(s) == 0
  {
    if s != [] {
      NoBraces(s[1..]);
    }
  }

  lemma {:induction false} WordLenWhole(w: string, rest: string)
    requires Word(w) || w == ""
    requires rest == "" || IsSpace(rest[0])
    ensures WordLen(w + rest) == |w|
  {
    if w == "" {
      assert w + rest == rest;
    } else {
      assert (w + rest)[1..] == w[1..] + rest;
      WordLenWhole(w[1..], rest);
    }
  }

  lemma {:induction false} FieldsWord(w: string, rest: string)
    requires Word(w) && (rest == "" || IsSpace(rest[0]))
    ensures Fields(w + rest) == [w] + Fields(rest)
  {
    WordLenWhole(w, rest);
    var s := w + rest;
    assert s[0] == w[0] && s[..|w|] == w && s[|w|..] == rest;
  }

  lemma {:induction false} FieldsTwo(a: string, b: string)
    requires Word(a) && Word(b)
    ensures Fields(a + " " + b) == [a, b]
  {
    FieldsWord(a, " " + b);
    assert a + " " + b == a + (" " + b);
    assert (" " + b)[1..] == b;
    FieldsWord(b, "");
    assert b + "" == b;
  }

  lemma {:induction false} FieldsThree(a: string, b: string, c: string)
    requires Word(a) && Word(b) && Word(c)
    ensures Fields(a + " " + (b + " " + c)) == [a, b, c]
  {
    var tail := b + " " + c;
    FieldsWord(a, " " + tail);
    assert a + " " + tail == a + (" " + tail);
    assert (" " + tail)[1..] == tail;
    FieldsTwo(b, c);
  }

  lemma {:induction false} TrimIndented(indent: string, body: string)
    requires Tabs(indent) && body != "" && !IsSpace(body[0]) && !IsSpace(body[|body| - 1])
    ensures Trim(indent + body) == body
  {
    TrimPadded(indent, body, "");
    assert indent + body + "" == indent + body;
  }

  predicate NoSpecials(s: string) { '#' !in s && '{' !in s && '}' !in s }

  /** An indented line without comment or brace characters is neutral and reads as its own words. */
  lemma {:induction false} WrittenLine(indent: string, body: string)
    requires Tabs(indent) && NoSpecials(body) && body != "" && !IsSpace(body[0]) && !IsSpace(body[|body| - 1])
    ensures
      var l := Read(indent + body);
      Neutral(l) && l.words == Fields(TrimSemicolon(body))
  {
    var text := indent + body;
    forall k | 0 <= k < |text| ensures text[k] !in {'#', '{', '}'} {
      assert text[k] == if k < |indent| then indent[k] else body[k - |indent|];
    }
    NoCommentFrom(text, 0, false, false);
    NoBraces(text);
    TrimIndented(indent, body);
  }

  // ----- a written directive reads back ---------------------------------------------------------

  lemma {:induction false} BalanceAppend(a: string, b: string)
    ensures Balance(a + b) == Balance(a) + Balance(b)
  {
    if a == [] {
      assert a + b == b;
    } else {
      assert (a + b)[1..] == a[1..] + b;
      BalanceAppend(a[1..], b);
    }
  }

  lemma {:induction false} StripShift(a: string, x: string, i: nat, inS: bool, inD: bool)
    requires i <= |x|
    ensures StripFrom(a + x, |a| + i, inS, inD) == a + StripFrom(x, i, inS, inD)
    decreases |x| - i
  {
    if i < |x| {
      StripShift(a, x, i + 1, !inS, inD);
      StripShift(a, x, i + 1, inS, !inD);
      StripShift(a, x, i + 1, inS, inD);
      assert (a + x)[|a| + i] == x[i];
      assert (a + x)[..|a| + i] == a + x[..i];
    }
  }

  predicate Quiet(s: string) { '#' !in s && '"' !in s && '\'' !in s }

  lemma {:induction false} StripSkips(a: string, x: string, i: nat)
    requires i <= |a| && Quiet(a)
    ensures StripFrom(a + x, i, false, false) == StripFrom(a + x, |a|, false, false)
    decreases |a| - i
  {
    if i < |a| {
      assert (a + x)[i] == a[i];
      StripSkips(a, x, i + 1);
    }
  }

  lemma {:induction false} StripAfter(a: string, x: string)
    requires Quiet(a)
    ensures StripComment(a + x) == a + StripComment(x)
  {
    StripSkips(a, x, 0);
    StripShift(a, x, 0, false, false);
  }

  /** Text without a comment sign behind a string matters only if the string has no comment. */
  lemma {:induction false} StripTail(p: string, t: string, i: nat, inS: bool, inD: bool)
    requires i <= |p| && '#' !in t
    ensures StripFrom(p, i, inS, inD) <= p
    ensures StripFrom(p + t, i, inS, inD) == if StripFrom(p, i, inS, inD) == p then p + t else StripFrom(p, i, inS, inD)
    decreases |p| - i
  {
    if i < |p| {
      StripTail(p, t, i + 1, !inS, inD);
      StripTail(p, t, i + 1, inS, !inD);
      StripTail(p, t, i + 1, inS, inD);
      assert (p + t)[i] == p[i] && (p + t)[..i] == p[..i];
    } else {
      NoCommentAfter(p + t, |p|, inS, inD);
    }
  }

  lemma {:induction false} NoCommentAfter(line: string, i: nat, inS: bool, inD: bool)
    requires i <= |line| && forall k :: i <= k < |line| ==> line[k] != '#'
    ensures StripFrom(line, i, inS, inD) == line
    decreases |line| - i
  {
    if i < |line| {
      NoCommentAfter(line, i + 1, !inS, inD);
      NoCommentAfter(line, i + 1, inS, !inD);
      NoCommentAfter(line, i + 1, inS, inD);
    }
  }

  lemma {:induction false} TrimSetInside(s: string, cut: set<char>)
    ensures |TrimSet(s, cut)| <= |s| && forall k :: 0 <= k < |TrimSet(s, cut)| ==> TrimSet(s, cut)[k] in s
  {
    if s != [] {
      if s[0] in cut {
        TrimSetInside(s[1..], cut);
      } else if s[|s| - 1] in cut {
        TrimSetInside(s[..|s| - 1], cut);
      }
    }
  }

  lemma {:induction false} FieldsAreWords(s: string)
    ensures forall k :: 0 <= k < |Fields(s)| ==> Word(Fields(s)[k])
    decreases |s|
  {
    if s != [] {
      if IsSpace(s[0]) {
        FieldsAreWords(s[1..]);
      } else {
        WordPart(s);
        FieldsAreWords(s[WordLen(s)..]);
      }
    }
  }

  lemma {:induction false} WordPart(s: string)
    ensures forall k :: 0 <= k < WordLen(s) ==> !IsSpace(s[k])
  {
    if s != [] && !IsSpace(s[0]) {
      WordPart(s[1..]);
    }
  }

  /** A directive name: one plain word. */
  predicate DirectiveName(name: string) { Word(name) && NoSpecials(name) && Quiet(name) && name != "server" && name[|name| - 1] != ';' }

  /** The line "name body": balance, first word and words, whatever the body is. */
  lemma {:induction false} DirectiveReads(indent: string, name: string, rest: string)
    requires Tabs(indent) && DirectiveName(name)
    ensures
      var l, bare := Read(indent + (name + " " + rest)), StripComment(rest);
      && l.net == Balance(bare) && !l.opens
      && l.words == Fields(TrimSemicolon(Trim(name + " " + bare)))
  {
    hide StripComment, Fields, Balance, Trim;
    var head, bare := indent + name + " ", StripComment(rest);
    var text := indent + (name + " " + rest);
    assert text == head + rest && head + bare == indent + (name + " " + bare);
    assert Quiet(head) by {
      assert forall k :: 0 <= k < |indent| ==> indent[k] == ' ' || indent[k] == '\t';
    }
    StripAfter(head, rest);
    BalanceAppend(head, bare);
    NoBraces(head);
    TrimHead(indent, name, bare);
    FirstWord(name, bare);
  }

  lemma {:induction false} TrimHead(indent: string, name: string, bare: string)
    requires Tabs(indent) && Word(name)
    ensures Trim(indent + (name + " " + bare)) == Trim(name + " " + bare)
  {
    var s := name + " " + bare;
    TrimPadded(indent, s, "");
    assert indent + s + "" == indent + s;
  }

  lemma {:induction false} TrimmedDirective(name: string, bare: string)
    requires Word(name)
    ensures Trim(name + " " + bare) == if Blank(bare) then name else name + " " + TrimRight(bare)
  {
    if Blank(bare) {
      TrimRightBlank(name, " " + bare);
      assert name + (" " + bare) == name + " " + bare;
    } else {
      TrimRightAppend(name + " ", bare);
    }
  }

  lemma {:induction false} FirstWord(name: string, bare: string)
    requires Word(name)
    ensures
      var first := Fields(Trim(name + " " + bare));
      |first| > 0 && first[0] == name
  {
    hide Fields, Trim;
    TrimmedDirective(name, bare);
    if Blank(bare) {
      FieldsWord(name, "");
      assert name + "" == name;
    } else {
      FieldsWord(name, " " + TrimRight(bare));
      assert name + (" " + TrimRight(bare)) == name + " " + TrimRight(bare);
    }
  }

  /** The name stays the first word when the final semicolon is cut. */
  lemma {:induction false} DirectiveFirst(name: string, bare: string)
    requires DirectiveName(name)
    ensures
      var words := Fields(TrimSemicolon(Trim(name + " " + bare)));
      |words| > 0 && words[0] == name
  {
    hide Fields, Trim;
    TrimmedDirective(name, bare);
    if Blank(bare) {
      FieldsWord(name, "");
      assert name + "" == name;
    } else {
      var r := TrimRight(bare);
      TrimRightShape(bare);
      var s := name + " " + r;
      assert r != [] && s[|s| - 1] == r[|r| - 1];
      assert TrimSemicolon(s) == name + (" " + TrimSemicolon(r));
      FieldsWord(name, " " + TrimSemicolon(r));
    }
  }

  /** The words of "name c" for one word or nothing, with or without a final semicolon. */
  lemma {:induction false} DirectiveWords(name: string, c: string)
    requires DirectiveName(name) && (c == "" || Word(c))
    ensures
      var words, v := Fields(TrimSemicolon(Trim(name + " " + c))), TrimSemicolon(c);
      words == if v == "" then [name] else [name, v]
  {
    hide Fields, Trim;
    TrimmedDirective(name, c);
    FieldsWord(name, "");
    BlankFields();
    assert name + "" == name;
    if c != "" {
      assert !IsSpace(c[0]) && !IsSpace(c[|c| - 1]);
      assert !Blank(c) && TrimRight(c) == c;
      var s := name + " " + c;
      var v := TrimSemicolon(c);
      assert TrimSemicolon(s) == name + " " + v;
      if v == "" {
        FieldsWord(name, " ");
        assert name + " " + v == name + " ";
      } else {
        FieldsTwo(name, v);
      }
    }
  }

  lemma BlankFields()
    ensures Fields(" ") == [] && Fields("") == []
  {
    assert " "[1..] == [];
  }

  /**
    A written directive "name value;" keeps its name as first word. It is neutral exactly when the
    value is a neutral path. It is neutral and its value reads back exactly when the value is a
    plain path; then it reads as its two words.
   */
  lemma {:induction false} WrittenDirective(indent: string, name: string, value: string)
    requires Tabs(indent) && DirectiveName(name)
    ensures
      var l := Read(indent + (name + " " + value + ";"));
      && |l.words| > 0 && l.words[0] == name
      && (Neutral(l) <==> NeutralPath(value))
      && (PlainPath(value) <==> Neutral(l) && |l.words| > 1 && Unquote(l.words[1]) == value)
      && (PlainPath(value) ==> l.words == [name, value])
  {
    hide Read, Fields, Trim, StripComment, Balance, Unquote;
    DirectiveFirst(name, StripComment(value + ";"));
    NeutralBalance(value);
    var rest := value + ";";
    assert name + " " + value + ";" == name + " " + rest;
    DirectiveReads(indent, name, rest);
    CommentCut(value);
    var l := Read(indent + (name + " " + rest));
    if Neutral(l) && |l.words| > 1 && Unquote(l.words[1]) == value {
      ReadBackIsOneWord(name, value);
    }
    if value == "" || Word(value) {
      OneWordReads(name, value);
      assert WordsRead(name, value) == Fields(TrimSemicolon(Trim(name + " " + StripComment(rest))));
    }
  }

  lemma {:induction false} NeutralBalance(value: string)
    ensures Balance(StripComment(value + ";")) == Balance(StripComment(value))
  {
    hide StripComment, Balance;
    CommentCut(value);
    BalanceAppend(value, ";");
    SemicolonBalance();
  }

  /** What is left of "value;" after comments are cut. */
  lemma {:induction false} CommentCut(value: string)
    ensures StripComment(value + ";") == if StripComment(value) == value then value + ";" else StripComment(value)
    ensures StripComment(value) <= value
  {
    StripTail(value, ";", 0, false, false);
  }

  lemma {:induction false} ReadBackIsOneWord(name: string, value: string)
    requires DirectiveName(name)
    ensures
      var words := Fields(TrimSemicolon(Trim(name + " " + StripComment(value + ";"))));
      |words| > 1 && Unquote(words[1]) == value ==> value == "" || Word(value)
  {
    hide Trim, StripComment, Fields;
    var words := Fields(TrimSemicolon(Trim(name + " " + StripComment(value + ";"))));
    FieldsAreWords(TrimSemicolon(Trim(name + " " + StripComment(value + ";"))));
    if |words| > 1 && Unquote(words[1]) == value {
      TrimSetInside(words[1], {'"', '\''});
      assert forall k :: 0 <= k < |value| ==> value[k] in words[1];
    }
  }

  /** The words of "name value;" once comments are cut, for a value of one word. */
  ghost function WordsRead(name: string, value: string): seq<string> {
    Fields(TrimSemicolon(Trim(name + " " + StripComment(value + ";"))))
  }

  lemma {:induction false} OneWordReads(name: string, value: string)
    requires DirectiveName(name) && (value == "" || Word(value))
    ensures
      var words := WordsRead(name, value);
      && (Balance(StripComment(value + ";")) == 0 && |words| > 1 && Unquote(words[1]) == value <==> PlainPath(value))
      && (PlainPath(value) ==> words == [name, value])
  {
    hide WordsRead, StripComment, Unquote, Balance, DirectiveName;
    CommentCut(value);
    if StripComment(value) == value {
      WholeWordReads(name, value);
    } else {
      CutWordReads(name, value);
    }
  }

  lemma {:induction false} WholeWordReads(name: string, value: string)
    requires DirectiveName(name) && (value == "" || Word(value)) && StripComment(value + ";") == value + ";"
    ensures WordsRead(name, value) == if value == "" then [name] else [name, value]
    ensures Balance(value + ";") == Balance(value)
  {
    hide Trim, StripComment, Fields, DirectiveName, Balance;
    assert Word(value + ";") by { SemicolonWord(value); }
    DirectiveWords(name, value + ";");
    assert TrimSemicolon(value + ";") == value;
    BalanceAppend(value, ";");
    SemicolonBalance();
  }

  lemma SemicolonWord(value: string)
    requires value == "" || Word(value)
    ensures Word(value + ";")
  {
  }

  lemma SemicolonBalance()
    ensures Balance(";") == 0
  {
    NoBraces(";");
  }

  lemma {:induction false} CutWordReads(name: string, value: string)
    requires DirectiveName(name) && (value == "" || Word(value)) && StripComment(value) != value
    ensures |WordsRead(name, value)| > 1 ==> Unquote(WordsRead(name, value)[1]) != value
  {
    hide Trim, StripComment, Fields, DirectiveName, Unquote;
    CommentCut(value);
    var bare := StripComment(value);
    assert |bare| < |value| && (bare == "" || Word(bare));
    DirectiveWords(name, bare);
    Shorter(TrimSemicolon(bare), value);
  }

  lemma Shorter(w: string, value: string)
    requires |w| < |value|
    ensures Unquote(w) != value
  {
    TrimSetInside(w, {'"', '\''});
  }

  /** The written listener line is neutral and names an SSL listener. */
  lemma {:induction false} WrittenListen(indent: string)
    requires Tabs(indent)
    ensures
      var l := Read(indent + "listen 443 ssl;");
      Neutral(l) && l.words == ["listen", "443", "ssl"]
  {
    hide Read, Fields, Trim;
    WrittenLine(indent, "listen 443 ssl;");
    assert TrimSemicolon("listen 443 ssl;") == "listen 443 ssl";
    ListenWords();
  }

  lemma {:induction false} ListenWords()
    ensures Fields("listen 443 ssl") == ["listen", "443", "ssl"]
  {
    hide Fields;
    FieldsThree("listen", "443", "ssl");
    assert "listen" + " " + ("443" + " " + "ssl") == "listen 443 ssl";
  }

  lemma {:induction false} LeadIsTabs(text: string)
    ensures Tabs(Read(text).lead)
  {
  }
}
