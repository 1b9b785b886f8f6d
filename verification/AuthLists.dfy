/**
 The comma-separated method lists of AuthenticationMethods: matching and consuming
 the head of a list as text, and what that means for the list's elements.
 */
module AuthLists {
  import opened Wrappers

  datatype Match = MatchNone | MatchMethod | MatchBoth | MatchPartial

  /** list_starts_with: how the text of a list begins with a method and submethod. */
  function ListStartsWith(methods: string, name: string, sub: Option<string>): Match {
    if !(name <= methods) then MatchNone
    else
      var p := |name|;
      if p < |methods| && methods[p] == ':' then
        if sub.None? then MatchPartial
        else if !(sub.value <= methods[p + 1..]) then MatchNone
        else
          var q := p + 1 + |sub.value|;
          if q < |methods| && methods[q] != ',' then MatchNone else MatchBoth
      else if p < |methods| && methods[p] != ',' then MatchNone
      else MatchMethod
  }

  /** remove_method: the text left once the head is cut off, or None when it does not match. */
  function RemoveMethod(methods: string, name: string, sub: Option<string>): Option<string> {
    var m := ListStartsWith(methods, name, sub);
    if m != MatchMethod && m != MatchBoth then None
    else
      var p := |name| + if sub.Some? && m == MatchBoth then 1 + |sub.value| else 0;
      Some(methods[if p < |methods| && methods[p] == ',' then p + 1 else p..])
  }

  // ----- the list as a sequence of elements

  function CommaAt(s: string): (k: nat)
    ensures k <= |s| && ',' !in s[..k]
    ensures k < |s| ==> s[k] == ','
  {
    if s == "" || s[0] == ',' then 0 else 1 + CommaAt(s[1..])
  }

  /** The pieces strsep(3) yields for the separator ",". */
  function Elements(s: string): (es: seq<string>)
    ensures es != []
    ensures es[0] == s[..CommaAt(s)]
    decreases |s|
  {
    var k := CommaAt(s);
    if k == |s| then [s] else [s[..k]] + Elements(s[k + 1..])
  }

  lemma ElementsTail(text: string)
    ensures var k, es := CommaAt(text), Elements(text);
      && es[0] == text[..k] && (es[0] == "" <==> k == 0)
      && (k == |text| ==> es == [text]) && (k < |text| ==> es == [text[..k]] + Elements(text[k + 1..]))
  {
    hide CommaAt;
    assert text[..|text|] == text;
  }

  /** The elements with commas between them again. */
  function Join(es: seq<string>): string
    requires es != []
  {
    if |es| == 1 then es[0] else es[0] + "," + Join(es[1..])
  }

  /** The elements are what the text says: comma-free, and with commas between them the text itself. */
  lemma {:induction false} ElementsJoin(s: string)
    ensures Join(Elements(s)) == s && forall e <- Elements(s) :: ',' !in e
    decreases |s|
  {
    hide Elements, CommaAt;
    var k := CommaAt(s);
    ElementsTail(s);
    if k < |s| {
      ElementsJoin(s[k + 1..]);
      assert Elements(s)[1..] == Elements(s[k + 1..]);
      assert s == s[..k] + "," + s[k + 1..];
    }
  }

  predicate PlainName(s: string) {
    ',' !in s && ':' !in s
  }

  predicate PlainSubmethod(sub: Option<string>) {
    sub.Some? ==> ',' !in sub.value
  }

  /** The element is satisfied by a success of this method and submethod. */
  predicate Fits(element: string, name: string, sub: Option<string>) {
    element == name || (sub.Some? && element == name + ":" + sub.value)
  }

  lemma {:induction false} CommaAtUnique(s: string, k: nat)
    requires k <= |s| && ',' !in s[..k] && (k < |s| ==> s[k] == ',')
    ensures CommaAt(s) == k
  {
    if k > 0 {
      assert s[0] == s[..k][0] && s[1..][..k - 1] == s[..k][1..];
      CommaAtUnique(s[1..], k - 1);
    }
  }

  /** A comma-free word at the start of the text is its head element iff a comma or the end follows. */
  lemma HeadIs(s: string, w: string)
    requires w <= s && ',' !in w
    ensures Elements(s)[0] == w <==> (|w| < |s| ==> s[|w|] == ',')
  {
    assert s[..|w|] == w;
    if |w| < |s| ==> s[|w|] == ',' {
      CommaAtUnique(s, |w|);
    }
  }

  lemma HeadPrefix(s: string, w: string)
    requires Elements(s)[0] == w
    ensures w <= s
    ensures |Elements(s)| == 1 <==> |w| == |s|
    ensures |w| < |s| ==> s[|w|] == ',' && Elements(s[|w| + 1..]) == Elements(s)[1..]
  {
  }

  lemma MatchMethodMeaning(s: string, name: string, sub: Option<string>)
    requires PlainName(name)
    ensures ListStartsWith(s, name, sub) == MatchMethod <==> Elements(s)[0] == name
  {
    if name <= s {
      HeadIs(s, name);
    }
  }

  lemma WordSplits(s: string, name: string, sub: string)
    ensures name + ":" + sub <= s
      <==> name <= s && |name| < |s| && s[|name|] == ':' && sub <= s[|name| + 1..]
  {
    var w := name + ":" + sub;
    if w <= s {
      assert w[..|name|] == name && w[|name|] == ':' && w[|name| + 1..] == sub;
      assert s[..|w|] == w;
      assert s[|name| + 1..][..|sub|] == s[..|w|][|name| + 1..];
    }
  }

  lemma MatchBothMeaning(s: string, name: string, sub: string)
    requires PlainName(name) && ',' !in sub
    ensures ListStartsWith(s, name, Some(sub)) == MatchBoth <==> Elements(s)[0] == name + ":" + sub
  {
    var w := name + ":" + sub;
    WordSplits(s, name, sub);
    if w <= s {
      HeadIs(s, w);
    }
  }

  lemma RemoveCutsHead(s: string, name: string, sub: Option<string>, e: string)
    requires e <= s && (|e| < |s| ==> s[|e|] == ',')
    requires match ListStartsWith(s, name, sub)
             case MatchMethod => e == name
             case MatchBoth => e == name + ":" + sub.value
             case _ => false
    ensures RemoveMethod(s, name, sub) == Some(s[if |e| < |s| then |e| + 1 else |e|..])
  {
  }

  /**
   remove_method consumes exactly one element, and does so exactly when that element is
   the method alone or the method with this submethod.
   */
  lemma RemoveMethodTakesHead(s: string, name: string, sub: Option<string>)
    requires PlainName(name) && PlainSubmethod(sub)
    ensures var r := RemoveMethod(s, name, sub);
      && (r.Some? <==> Fits(Elements(s)[0], name, sub))
      && (r.Some? ==> if |Elements(s)| == 1 then r.value == "" else Elements(r.value) == Elements(s)[1..])
  {
    MatchMethodMeaning(s, name, sub);
    if sub.Some? {
      MatchBothMeaning(s, name, sub.value);
    }
    var e := Elements(s)[0];
    HeadPrefix(s, e);
    if Fits(e, name, sub) {
      RemoveCutsHead(s, name, sub, e);
    }
  }

  /** What makes a method worth trying: some head names it, whatever submethod is still unknown. */
  lemma ListStartsWithMeaning(s: string, name: string, sub: Option<string>)
    requires PlainName(name) && PlainSubmethod(sub)
    ensures ListStartsWith(s, name, sub) == MatchPartial
      <==> sub.None? && name + ":" <= s
    ensures ListStartsWith(s, name, sub) != MatchNone
      <==> Fits(Elements(s)[0], name, sub) || (sub.None? && name + ":" <= s)
  {
    hide Elements, CommaAt;
    RemoveMethodTakesHead(s, name, sub);
    if name <= s && |name| < |s| {
      assert (name + ":" <= s) == (s[|name|] == ':');
    }
  }
}
