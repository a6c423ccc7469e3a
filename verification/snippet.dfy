/**
  The JavaScript that `InjectCSS`, `InjectScript` and `InjectScriptSrc` hand
  to the UI: three statements that create an element named after the
  injection id, fill it with the payload and append it to the document body.
  `Parse` is the partner of `Build`: it recovers the kind, id and payload from
  a snippet, so a snippet determines all three.
 */
module Snippet {
  import opened Wrappers
  import Decimal

  /** Which of the three injection operations produced a snippet. */
  datatype Kind = Css | Script | ScriptSrc

  /** An injection request as recovered from its snippet. */
  datatype Injection = Injection(kind: Kind, id: int, payload: string)

  /** The element tag: a stylesheet for CSS, a script otherwise. */
  function Tag(k: Kind): string {
    if k == Css then "style" else "script"
  }

  /** The element property the payload is assigned to: a URL goes to `src`. */
  function Property(k: Kind): string {
    if k == ScriptSrc then "src" else "innerHTML"
  }

  /** The JavaScript variable that holds the element of injection `id`. */
  function Name(id: int): string {
    "___" + Decimal.Format(id)
  }

  /** First statement: declare the element held in variable `name`. */
  function Create(k: Kind, name: string): string {
    "let " + name + "=document.createElement(\"" + Tag(k) + "\");"
  }

  /** Second statement: the payload, verbatim, in a template literal. */
  function Assign(k: Kind, name: string, payload: string): string {
    name + "." + Property(k) + "=`" + payload + "`;"
  }

  /** Third statement: attach the element to the page. */
  function Append(name: string): string {
    "document.body.appendChild(" + name + ");"
  }

  /** The three statements for an element held in variable `name`. */
  function Statements(k: Kind, name: string, payload: string): string {
    Create(k, name) + Assign(k, name, payload) + Append(name)
  }

  /**
    The snippet evaluated for an injection of `payload` with id `id`: the
    head for its kind and element name, the payload verbatim, and the tail.
   */
  function Build(k: Kind, id: int, payload: string): (s: string)
    ensures Matches(s, k, id) && PayloadOf(s, k, id) == payload
  {
    StatementsMatch(k, Name(id), payload);
    Statements(k, Name(id), payload)
  }

  /** Everything in a snippet before the payload. */
  function Head(k: Kind, name: string): string {
    Create(k, name) + name + "." + Property(k) + "=`"
  }

  /** Everything in a snippet after the payload. */
  function Tail(name: string): string {
    "`;" + Append(name)
  }

  /** Position of the first `c` in `s`, or `|s|` when there is none. */
  function IndexOf(s: string, c: char): (r: nat)
    ensures r <= |s|
    ensures forall j :: 0 <= j < r ==> s[j] != c
    ensures r < |s| ==> s[r] == c
    decreases |s|
  {
    if |s| == 0 then 0 else if s[0] == c then 0 else 1 + IndexOf(s[1..], c)
  }

  /** `s` is laid out as a snippet of kind `k` for injection `id`. */
  predicate Matches(s: string, k: Kind, id: int) {
    var h := Head(k, Name(id));
    var t := Tail(Name(id));
    |h| + |t| <= |s| && s[..|h|] == h && s[|s| - |t|..] == t
  }

  /** The payload of a snippet laid out for `k` and `id`. */
  function PayloadOf(s: string, k: Kind, id: int): string
    requires Matches(s, k, id)
  {
    s[|Head(k, Name(id))|..|s| - |Tail(Name(id))|]
  }

  /** The injection a snippet performs with a known id, trying each kind in turn. */
  function ParseAs(s: string, id: int): (r: Option<Injection>)
    ensures r.Some? ==> r.value.id == id && Matches(s, r.value.kind, id) && r.value.payload == PayloadOf(s, r.value.kind, id)
  {
    if Matches(s, Css, id) then Some(Injection(Css, id, PayloadOf(s, Css, id)))
    else if Matches(s, Script, id) then Some(Injection(Script, id, PayloadOf(s, Script, id)))
    else if Matches(s, ScriptSrc, id) then Some(Injection(ScriptSrc, id, PayloadOf(s, ScriptSrc, id)))
    else None
  }

  /** The injection a snippet performs, if it is one `Build` can produce. */
  function Parse(s: string): Option<Injection> {
    if |s| < 7 || s[..7] != "let ___" then None
    else
      var digits := s[7..7 + IndexOf(s[7..], '=')];
      match Decimal.Parse(digits)
      case None => None
      case Some(id) => ParseAs(s, id)
  }

  lemma StatementsLayout(k: Kind, name: string, payload: string)
    ensures Statements(k, name, payload) == Head(k, name) + payload + Tail(name)
  {
  }

  lemma StatementsMatch(k: Kind, name: string, payload: string)
    ensures var s, h, t := Statements(k, name, payload), Head(k, name), Tail(name);
      && |h| + |t| <= |s| && s[..|h|] == h && s[|s| - |t|..] == t && s[|h|..|s| - |t|] == payload
  {
    var s := Statements(k, name, payload);
    var h := Head(k, name);
    var t := Tail(name);
    StatementsLayout(k, name, payload);
    assert s == h + payload + t;
    assert s[..|h|] == h;
    assert s[|s| - |t|..] == t;
    assert s[|h|..|s| - |t|] == payload;
  }

  /** The text of a snippet up to the element tag. */
  function Opening(name: string): string {
    "let " + name + "=document.createElement(\""
  }

  /** The text of a snippet between the element tag and the property name. */
  function Middle(name: string): string {
    "\");" + name + "."
  }

  lemma HeadLayout(k: Kind, name: string)
    ensures Head(k, name) == Opening(name) + Tag(k) + (Middle(name) + Property(k) + "=`")
  {
    assert Create(k, name) == Opening(name) + Tag(k) + "\");";
  }

  lemma CharAt(a: string, b: string, c: string, j: nat)
    requires j < |b|
    ensures |a| + j < |a + b + c| && (a + b + c)[|a| + j] == b[j]
  {
  }

  /** A stylesheet head and a script head part at the second letter of the tag. */
  lemma TagsDiffer(k1: Kind, k2: Kind, name: string) returns (i: nat)
    requires k1 == Css && k2 != Css
    ensures i < |Head(k1, name)| && i < |Head(k2, name)|
    ensures Head(k1, name)[i] != Head(k2, name)[i]
  {
    HeadLayout(k1, name);
    HeadLayout(k2, name);
    var o := Opening(name);
    var r1 := Middle(name) + Property(k1) + "=`";
    var r2 := Middle(name) + Property(k2) + "=`";
    assert Head(k1, name) == o + "style" + r1;
    assert Head(k2, name) == o + "script" + r2;
    i := |o| + 1;
    CharAt(o, "style", r1, 1);
    CharAt(o, "script", r2, 1);
  }

  /** An inline-script head and a script-URL head part at the property name. */
  lemma PropertiesDiffer(name: string) returns (i: nat)
    ensures i < |Head(Script, name)| && i < |Head(ScriptSrc, name)|
    ensures Head(Script, name)[i] != Head(ScriptSrc, name)[i]
  {
    HeadLayout(Script, name);
    HeadLayout(ScriptSrc, name);
    var q := Opening(name) + "script" + Middle(name);
    assert Head(Script, name) == q + "innerHTML" + "=`";
    assert Head(ScriptSrc, name) == q + "src" + "=`";
    i := |q|;
    CharAt(q, "innerHTML", "=`", 0);
    CharAt(q, "src", "=`", 0);
  }

  /** The heads of two different kinds disagree at a position both of them reach. */
  lemma HeadsDiffer(k1: Kind, k2: Kind, name: string) returns (i: nat)
    requires k1 != k2
    ensures i < |Head(k1, name)| && i < |Head(k2, name)|
    ensures Head(k1, name)[i] != Head(k2, name)[i]
  {
    if k1 == Css {
      i := TagsDiffer(k1, k2, name);
    } else if k2 == Css {
      i := TagsDiffer(k2, k1, name);
    } else if k1 == Script {
      i := PropertiesDiffer(name);
    } else {
      i := PropertiesDiffer(name);
    }
  }

  /** A snippet built for one kind is not laid out as any other kind. */
  lemma OnlyOwnKindMatches(k: Kind, other: Kind, id: int, payload: string)
    requires other != k
    ensures !Matches(Build(k, id, payload), other, id)
  {
    var name := Name(id);
    var s := Build(k, id, payload);
    var i := HeadsDiffer(k, other, name);
    assert s[i] == s[..|Head(k, name)|][i] == Head(k, name)[i];
    assert |Head(other, name)| <= |s| ==> s[..|Head(other, name)|][i] == s[i];
  }

  /** The first `c` in `a + b` is the head of `b` when `a` holds no `c`. */
  lemma {:induction false} IndexOfJoin(a: string, b: string, c: char)
    requires c !in a && |b| > 0 && b[0] == c
    ensures IndexOf(a + b, c) == |a|
    decreases |a|
  {
    if |a| > 0 {
      assert (a + b)[1..] == a[1..] + b;
      IndexOfJoin(a[1..], b, c);
    }
  }

  /** What follows the variable name in a snippet. */
  function AfterName(k: Kind, name: string, payload: string): string {
    "=document.createElement(\"" + Tag(k) + "\");" + Assign(k, name, payload) + Append(name)
  }

  lemma StatementsSplit(k: Kind, name: string, payload: string)
    ensures Statements(k, name, payload) == "let " + (name + AfterName(k, name, payload))
  {
    Regroup("let ", name, "=document.createElement(\"", Tag(k), "\");", Assign(k, name, payload), Append(name));
  }

  /** Re-bracketing a concatenation of seven pieces. */
  lemma Regroup(a: string, b: string, c: string, d: string, e: string, f: string, g: string)
    ensures a + b + c + d + e + f + g == a + (b + (c + d + e + f + g))
  {
  }

  lemma Regroup4(a: string, b: string, c: string, d: string)
    ensures a + (b + c + d) == (a + b) + (c + d)
  {
  }

  /** Splitting a concatenation where its parts meet. */
  lemma SplitAt(x: string, y: string)
    ensures (x + y)[..|x|] == x && (x + y)[|x|..] == y
  {
  }

  /** In `lead + f + rest`, the text between `lead` and the first `=` is `f`, when `f` holds no `=` and `rest` starts with one. */
  lemma FieldAfter(lead: string, f: string, rest: string)
    requires '=' !in f && |rest| > 0 && rest[0] == '='
    ensures var s := lead + (f + rest);
      s[..|lead|] == lead && s[|lead|..|lead| + IndexOf(s[|lead|..], '=')] == f
  {
    var s := lead + (f + rest);
    SplitAt(lead, f + rest);
    SplitAt(f, rest);
    IndexOfJoin(f, rest, '=');
    assert s[|lead|..|lead| + |f|] == s[|lead|..][..|f|];
  }

  /** The digits after `let ___` run up to the first `=`. */
  lemma BuildDigits(k: Kind, id: int, payload: string)
    ensures var s := Build(k, id, payload);
      |s| >= 7 && s[..7] == "let ___" && s[7..7 + IndexOf(s[7..], '=')] == Decimal.Format(id)
  {
    var f := Decimal.Format(id);
    var rest := AfterName(k, Name(id), payload);
    StatementsSplit(k, Name(id), payload);
    Regroup4("let ", "___", f, rest);
    var lead := "let ___";
    assert "let " + "___" == lead;
    assert Build(k, id, payload) == lead + (f + rest);
    FieldAfter(lead, f, rest);
  }

  /** What `Parse` makes of a text whose id field and layout are known. */
  lemma ParseOf(s: string, k: Kind, id: int)
    requires |s| >= 7 && s[..7] == "let ___" && s[7..7 + IndexOf(s[7..], '=')] == Decimal.Format(id)
    requires Matches(s, k, id)
    requires k != Css ==> !Matches(s, Css, id)
    requires k == ScriptSrc ==> !Matches(s, Script, id)
    ensures Parse(s) == Some(Injection(k, id, PayloadOf(s, k, id)))
  {
    ParseFindsId(s, id);
    ParseAsKind(s, k, id);
  }

  lemma ParseFindsId(s: string, id: int)
    requires |s| >= 7 && s[..7] == "let ___" && s[7..7 + IndexOf(s[7..], '=')] == Decimal.Format(id)
    ensures Parse(s) == ParseAs(s, id)
  {
    var digits := s[7..7 + IndexOf(s[7..], '=')];
    assert Decimal.Parse(digits) == Some(id) by {
      Decimal.ParseFormat(id);
    }
  }

  lemma ParseAsKind(s: string, k: Kind, id: int)
    requires Matches(s, k, id)
    requires k != Css ==> !Matches(s, Css, id)
    requires k == ScriptSrc ==> !Matches(s, Script, id)
    ensures ParseAs(s, id) == Some(Injection(k, id, PayloadOf(s, k, id)))
  {
  }

  /** Parsing a built snippet recovers the injection that built it. */
  lemma ParseBuild(k: Kind, id: int, payload: string)
    ensures Parse(Build(k, id, payload)) == Some(Injection(k, id, payload))
  {
    BuildDigits(k, id, payload);
    if k != Css {
      OnlyOwnKindMatches(k, Css, id, payload);
    }
    if k == ScriptSrc {
      OnlyOwnKindMatches(k, Script, id, payload);
    }
    ParseOf(Build(k, id, payload), k, id);
  }

  /** A snippet laid out for `k` and `id` is the snippet built from its payload. */
  lemma MatchesRebuild(s: string, k: Kind, id: int)
    requires Matches(s, k, id)
    ensures Build(k, id, PayloadOf(s, k, id)) == s
  {
    StatementsLayout(k, Name(id), PayloadOf(s, k, id));
    Reassemble(s, Head(k, Name(id)), Tail(Name(id)));
  }

  /** A string that starts with `h` and ends with `t` is `h`, its middle, and `t`. */
  lemma Reassemble(s: string, h: string, t: string)
    requires |h| + |t| <= |s| && s[..|h|] == h && s[|s| - |t|..] == t
    ensures h + s[|h|..|s| - |t|] + t == s
  {
    assert s == s[..|h|] + s[|h|..|s| - |t|] + s[|s| - |t|..];
  }

  /** Whatever `Parse` accepts is exactly the snippet of the injection it returns. */
  lemma BuildParse(s: string)
    requires Parse(s).Some?
    ensures var inj := Parse(s).value; Build(inj.kind, inj.id, inj.payload) == s
  {
    var inj := Parse(s).value;
    MatchesRebuild(s, inj.kind, inj.id);
  }

  /** Two injections produce the same snippet only when they are the same injection. */
  lemma BuildInjective(k1: Kind, id1: int, p1: string, k2: Kind, id2: int, p2: string)
    ensures Build(k1, id1, p1) == Build(k2, id2, p2) <==> (k1, id1, p1) == (k2, id2, p2)
  {
    ParseBuild(k1, id1, p1);
    ParseBuild(k2, id2, p2);
  }

  /** Distinct ids name distinct elements. */
  lemma NameInjective(id1: int, id2: int)
    ensures Name(id1) == Name(id2) <==> id1 == id2
  {
    Decimal.FormatInjective(id1, id2);
    if Name(id1) == Name(id2) {
      assert Decimal.Format(id1) == Name(id1)[3..];
      assert Decimal.Format(id2) == Name(id2)[3..];
    }
  }
}
