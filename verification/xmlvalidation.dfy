/** The string and structure validators of the XML loader.

    An element is reduced to what the validators read: its tag, its line,
    its attributes in the order the element's attribute map
    (QDomNamedNodeMap) yields them, which need not be document order, and
    its direct children, where a child that is not an element (text, a
    comment) only takes up a place.
    The table of allowed child elements is a QHash in the source; here it
    is a list of (tag, limit) pairs, and the order in which the source
    happens to iterate the hash is taken to be the order of that list. */
module XmlValidation {
  import opened Wrappers
  import opened Strings
  import opened Lexical
  import opened Errors

  const NameMaxLength: nat := 32
  const DescMaxLength: nat := 256

  /** The limits as QString::number writes them into messages. */
  lemma MaxLengthsSpelled()
    ensures NatToString(NameMaxLength) == "32" && NatToString(DescMaxLength) == "256"
  {
    assert NatToString(3) == "3";
    assert NatToString(25) == NatToString(2) + "5";
  }

  datatype Attribute = Attribute(name: string, value: string, line: int)

  datatype Child = ChildElement(tag: string, line: int) | OtherNode

  datatype Element = Element(tag: string, line: int, attributes: seq<Attribute>, children: seq<Child>)

  type AllowedElements = seq<(string, int)>

  // ---------------------------------------------------------------------
  // Attributes

  predicate HasAttribute(e: Element, name: string) {
    exists i :: 0 <= i < |e.attributes| && e.attributes[i].name == name
  }

  /** QDomElement::attribute: the value of the attribute of that name, or
      the empty string when there is none. */
  function AttributeValue(attrs: seq<Attribute>, name: string): (v: string)
    ensures (forall i :: 0 <= i < |attrs| ==> attrs[i].name != name) ==> v == ""
    ensures |attrs| > 0 && attrs[0].name == name ==> v == attrs[0].value
  {
    if |attrs| == 0 then ""
    else if attrs[0].name == name then attrs[0].value
    else AttributeValue(attrs[1..], name)
  }

  // ---------------------------------------------------------------------
  // parseName, parseDescription

  /** The name attribute of an element, checked in this order: present
      and non-empty, at most 32 UTF-16 code units (QString::length), a
      Latin letter or '_' first, and only Latin letters, digits and '_'
      throughout. The rule it enforces is exactly the identifier rule of the
      expression language. A bad first character is reported with no
      argument, so its message keeps its "{1}"; a bad later character is
      reported with the name. Only the empty name carries no line. */
  function ParseName(e: Element): (r: Result<string, TEException>)
    ensures var res := AttributeValue(e.attributes, "name");
      r.Success? <==> Utf16Length(res) <= NameMaxLength && IsIdentifier(res)
    ensures r.Success? ==> r.value == AttributeValue(e.attributes, "name")
    ensures var res := AttributeValue(e.attributes, "name");
      r.Failure? ==>
        (r.error.errorType == EmptyAttributeName <==> |res| == 0) &&
        (r.error.errorType == InputSizeExceeded <==> Utf16Length(res) > NameMaxLength) &&
        (r.error.errorType == InvalidName <==> 0 < Utf16Length(res) <= NameMaxLength)
    ensures var res := AttributeValue(e.attributes, "name");
      Utf16Length(res) > NameMaxLength ==>
        r == Failure(RaiseAtLine(InputSizeExceeded, e.line, ["name", NatToString(Utf16Length(res)), "32"]))
    ensures var res := AttributeValue(e.attributes, "name");
      |res| == 0 ==> r == Failure(Raise(EmptyAttributeName))
    ensures var res := AttributeValue(e.attributes, "name");
      0 < |res| && Utf16Length(res) <= NameMaxLength && !IsIdentifierStart(res[0]) ==>
        r == Failure(RaiseAtLine(InvalidName, e.line))
    ensures var res := AttributeValue(e.attributes, "name");
      0 < |res| && Utf16Length(res) <= NameMaxLength && IsIdentifierStart(res[0]) && !IsIdentifier(res) ==>
        r == Failure(RaiseAtLine(InvalidName, e.line, [res]))
  {
    var res := AttributeValue(e.attributes, "name");
    if |res| == 0 then Failure(Raise(EmptyAttributeName))
    else if Utf16Length(res) > NameMaxLength then
      MaxLengthsSpelled();
      Failure(RaiseAtLine(InputSizeExceeded, e.line, ["name", NatToString(Utf16Length(res)), NatToString(NameMaxLength)]))
    else if !IsIdentifierStart(res[0]) then Failure(RaiseAtLine(InvalidName, e.line))
    else if !AllWordChars(res) then Failure(RaiseAtLine(InvalidName, e.line, [res]))
    else Success(res)
  }

  predicate AllWordChars(s: string) {
    forall i :: 0 <= i < |s| ==> IsWordChar(s[i])
  }

  /** The character loop of parseName, one character at a time. */
  method ParseNameLoop(e: Element) returns (r: Result<string, TEException>)
    ensures r == ParseName(e)
  {
    var res := AttributeValue(e.attributes, "name");
    if |res| == 0 {
      return Failure(Raise(EmptyAttributeName));
    }
    if Utf16Length(res) > NameMaxLength {
      return Failure(RaiseAtLine(InputSizeExceeded, e.line, ["name", NatToString(Utf16Length(res)), NatToString(NameMaxLength)]));
    }
    if !(IsLatinLetter(res[0]) || res[0] == '_') {
      return Failure(RaiseAtLine(InvalidName, e.line));
    }
    var i := 0;
    while i < |res|
      invariant 0 <= i <= |res|
      invariant forall k :: 0 <= k < i ==> IsWordChar(res[k])
    {
      if !(IsLatinLetter(res[i]) || IsDigit(res[i]) || res[i] == '_') {
        return Failure(RaiseAtLine(InvalidName, e.line, [res]));
      }
      i := i + 1;
    }
    return Success(res);
  }

  /** An identifier is plain ASCII, so the length parseName checks is its
      number of characters. */
  lemma IdentifierLengthIsCharacterCount(s: string)
    requires IsIdentifier(s)
    ensures Utf16Length(s) == |s|
  {
    Utf16LengthOfBmp(s);
  }

  /** A name made of 17 characters beyond U+FFFF has 34 code units: it is
      too long before it is found not to be an identifier. */
  lemma NameOfSupplementaryCharacters(e: Element, c: char)
    requires IsSupplementary(c) && AttributeValue(e.attributes, "name") == seq(17, _ => c)
    ensures ParseName(e) == Failure(RaiseAtLine(InputSizeExceeded, e.line, ["name", "34", "32"]))
  {
    var res := AttributeValue(e.attributes, "name");
    Utf16LengthOfRepeat(c, 17);
    assert Utf16Length(res) == 34;
    assert NatToString(34) == "34" by {
      assert DigitChar(3) == '3' && DigitChar(4) == '4';
      assert NatToString(34) == NatToString(3) + [DigitChar(4)];
    }
  }

  /** The text of a description element: non-empty and at most 256 UTF-16
      code units, returned unchanged. */
  function ParseDescription(text: string, line: int): (r: Result<string, TEException>)
    ensures r.Success? <==> 0 < |text| && Utf16Length(text) <= DescMaxLength
    ensures r.Success? ==> r.value == text
    ensures |text| == 0 ==> r == Failure(Raise(EmptyElementValue))
    ensures Utf16Length(text) > DescMaxLength ==>
      r == Failure(RaiseAtLine(InputSizeExceeded, line, ["description", NatToString(Utf16Length(text)), "256"]))
  {
    if |text| == 0 then Failure(Raise(EmptyElementValue))
    else if Utf16Length(text) > DescMaxLength then
      MaxLengthsSpelled();
      Failure(RaiseAtLine(InputSizeExceeded, line, ["description", NatToString(Utf16Length(text)), NatToString(DescMaxLength)]))
    else Success(text)
  }

  /** A description of 200 characters beyond U+FFFF is 400 code units long
      and so too long. */
  lemma DescriptionOfSupplementaryCharacters(c: char, line: int)
    requires IsSupplementary(c)
    ensures ParseDescription(seq(200, _ => c), line) ==
      Failure(RaiseAtLine(InputSizeExceeded, line, ["description", "400", "256"]))
  {
    var text := seq(200, _ => c);
    Utf16LengthOfRepeat(c, 200);
    assert |text| == 200 && Utf16Length(text) == 400;
    assert NatToString(400) == "400" by {
      assert DigitChar(4) == '4' && DigitChar(0) == '0';
      assert NatToString(40) == NatToString(4) + [DigitChar(0)];
      assert NatToString(400) == NatToString(40) + [DigitChar(0)];
    }
  }

  // ---------------------------------------------------------------------
  // countDirectChildren

  predicate IsChildNamed(ch: Child, tag: string) {
    ch.ChildElement? && ch.tag == tag
  }

  /** The number of direct children that are elements with exactly that
      tag; none exactly when no such child exists. */
  function CountDirectChildren(children: seq<Child>, tag: string): (n: nat)
    ensures n <= |children|
    ensures n == 0 <==> forall i :: 0 <= i < |children| ==> !IsChildNamed(children[i], tag)
    decreases |children|
  {
    if |children| == 0 then 0
    else
      var last := children[|children| - 1];
      CountDirectChildren(children[..|children| - 1], tag) + (if IsChildNamed(last, tag) then 1 else 0)
  }

  method CountDirectChildrenLoop(e: Element, tag: string) returns (count: nat)
    ensures count == CountDirectChildren(e.children, tag)
  {
    count := 0;
    var i := 0;
    while i < |e.children|
      invariant 0 <= i <= |e.children|
      invariant count == CountDirectChildren(e.children[..i], tag)
    {
      assert e.children[..i + 1][..i] == e.children[..i];
      if e.children[i].ChildElement? && e.children[i].tag == tag {
        count := count + 1;
      }
      i := i + 1;
    }
    assert e.children[..i] == e.children;
  }

  // ---------------------------------------------------------------------
  // validateAttributes

  function UnexpectedAttributeError(a: Attribute, allowed: seq<string>): TEException {
    RaiseAtLine(UnexpectedAttribute, a.line, [a.name, Join(allowed, "; ")])
  }

  /** Every attribute must be one of the allowed names; the first one that
      is not is reported with the allowed names joined by "; ". */
  function ValidateAttributes(e: Element, allowed: seq<string>): (r: Outcome<TEException>)
    ensures r.Pass? <==> forall i :: 0 <= i < |e.attributes| ==> e.attributes[i].name in allowed
    ensures r.Fail? ==>
      exists i :: 0 <= i < |e.attributes| &&
        e.attributes[i].name !in allowed && (forall j :: 0 <= j < i ==> e.attributes[j].name in allowed) &&
        r.error == UnexpectedAttributeError(e.attributes[i], allowed)
  {
    AttributesFrom(e.attributes, allowed, 0)
  }

  function AttributesFrom(attrs: seq<Attribute>, allowed: seq<string>, i: nat): (r: Outcome<TEException>)
    requires i <= |attrs|
    ensures r.Pass? <==> forall k :: i <= k < |attrs| ==> attrs[k].name in allowed
    ensures r.Fail? ==>
      exists k :: i <= k < |attrs| &&
        attrs[k].name !in allowed && (forall j :: i <= j < k ==> attrs[j].name in allowed) &&
        r.error == UnexpectedAttributeError(attrs[k], allowed)
    decreases |attrs| - i
  {
    if i == |attrs| then Pass
    else if attrs[i].name !in allowed then Fail(UnexpectedAttributeError(attrs[i], allowed))
    else
      var r := AttributesFrom(attrs, allowed, i + 1);
      assert r.Fail? ==>
        exists k :: i + 1 <= k < |attrs| &&
          attrs[k].name !in allowed && (forall j :: i + 1 <= j < k ==> attrs[j].name in allowed) &&
          r.error == UnexpectedAttributeError(attrs[k], allowed);
      r
  }

  // ---------------------------------------------------------------------
  // validateChildElements

  function Keys(allowed: AllowedElements): (ks: seq<string>)
    ensures |ks| == |allowed|
    ensures forall i :: 0 <= i < |allowed| ==> ks[i] == allowed[i].0
  {
    if |allowed| == 0 then [] else [allowed[0].0] + Keys(allowed[1..])
  }

  /** QHash::value: the limit recorded for the tag, 0 when it has none. */
  function Limit(allowed: AllowedElements, tag: string): int {
    if |allowed| == 0 then 0
    else if allowed[0].0 == tag then allowed[0].1
    else Limit(allowed[1..], tag)
  }

  /** A direct child is acceptable when it is not an element, or its tag is
      allowed and no more children carry that tag than the limit says. */
  predicate ChildAccepted(e: Element, allowed: AllowedElements, ch: Child) {
    ch.ChildElement? ==>
      ch.tag in Keys(allowed) && CountDirectChildren(e.children, ch.tag) <= Limit(allowed, ch.tag)
  }

  function ChildError(e: Element, allowed: AllowedElements, ch: Child): TEException
    requires ch.ChildElement?
  {
    if ch.tag !in Keys(allowed) then RaiseAtLine(UnexpectedElement, ch.line, [ch.tag, Join(Keys(allowed), "; ")])
    else RaiseAtLine(DuplicateElement, ch.line, [ch.tag])
  }

  /** Each element child, in document order: a tag outside the table is
      UnexpectedElement, a tag seen more often than its limit is
      DuplicateElement; the first offending child is reported. */
  function ValidateChildElements(e: Element, allowed: AllowedElements): (r: Outcome<TEException>)
    ensures r.Pass? <==> forall i :: 0 <= i < |e.children| ==> ChildAccepted(e, allowed, e.children[i])
    ensures r.Fail? ==>
      exists i :: 0 <= i < |e.children| &&
        !ChildAccepted(e, allowed, e.children[i]) &&
        (forall j :: 0 <= j < i ==> ChildAccepted(e, allowed, e.children[j])) &&
        r.error == ChildError(e, allowed, e.children[i])
  {
    var k := FirstRejected(e, allowed, 0);
    if k == |e.children| then Pass else Fail(ChildError(e, allowed, e.children[k]))
  }

  /** The index of the first child from `i` on that is not accepted, or
      the number of children when every one is. */
  function FirstRejected(e: Element, allowed: AllowedElements, i: nat): (k: nat)
    requires i <= |e.children|
    ensures i <= k <= |e.children|
    ensures forall j :: i <= j < k ==> ChildAccepted(e, allowed, e.children[j])
    ensures k < |e.children| ==> !ChildAccepted(e, allowed, e.children[k])
    decreases |e.children| - i
  {
    if i == |e.children| || !ChildAccepted(e, allowed, e.children[i]) then i
    else FirstRejected(e, allowed, i + 1)
  }

  // ---------------------------------------------------------------------
  // validateRequiredAttributes, validateRequiredChildElements

  /** Every listed attribute must be present; the first missing one is
      reported at the element's line. */
  function ValidateRequiredAttributes(e: Element, names: seq<string>): (r: Outcome<TEException>)
    ensures r.Pass? <==> forall i :: 0 <= i < |names| ==> HasAttribute(e, names[i])
    ensures r.Fail? ==>
      exists i :: 0 <= i < |names| && !HasAttribute(e, names[i]) &&
        (forall j :: 0 <= j < i ==> HasAttribute(e, names[j])) &&
        r.error == RaiseAtLine(MissingRequiredAttribute, e.line, [names[i]])
  {
    RequiredAttributesFrom(e, names, 0)
  }

  function RequiredAttributesFrom(e: Element, names: seq<string>, i: nat): (r: Outcome<TEException>)
    requires i <= |names|
    ensures r.Pass? <==> forall k :: i <= k < |names| ==> HasAttribute(e, names[k])
    ensures r.Fail? ==>
      exists k :: i <= k < |names| && !HasAttribute(e, names[k]) &&
        (forall j :: i <= j < k ==> HasAttribute(e, names[j])) &&
        r.error == RaiseAtLine(MissingRequiredAttribute, e.line, [names[k]])
    decreases |names| - i
  {
    if i == |names| then Pass
    else if !HasAttribute(e, names[i]) then Fail(RaiseAtLine(MissingRequiredAttribute, e.line, [names[i]]))
    else RequiredAttributesFrom(e, names, i + 1)
  }

  predicate HasChild(e: Element, tag: string) {
    exists i :: 0 <= i < |e.children| && IsChildNamed(e.children[i], tag)
  }

  /** Every listed tag must occur among the direct element children; the
      first missing one is reported at the element's line. */
  function ValidateRequiredChildElements(e: Element, tags: seq<string>): (r: Outcome<TEException>)
    ensures r.Pass? <==> forall i :: 0 <= i < |tags| ==> HasChild(e, tags[i])
    ensures r.Fail? ==>
      exists i :: 0 <= i < |tags| && !HasChild(e, tags[i]) &&
        (forall j :: 0 <= j < i ==> HasChild(e, tags[j])) &&
        r.error == RaiseAtLine(MissingRequiredChildElement, e.line, [tags[i]])
  {
    RequiredChildrenFrom(e, tags, 0)
  }

  function RequiredChildrenFrom(e: Element, tags: seq<string>, i: nat): (r: Outcome<TEException>)
    requires i <= |tags|
    ensures r.Pass? <==> forall k :: i <= k < |tags| ==> HasChild(e, tags[k])
    ensures r.Fail? ==>
      exists k :: i <= k < |tags| && !HasChild(e, tags[k]) &&
        (forall j :: i <= j < k ==> HasChild(e, tags[j])) &&
        r.error == RaiseAtLine(MissingRequiredChildElement, e.line, [tags[k]])
    decreases |tags| - i
  {
    if i == |tags| then Pass
    else if !HasChild(e, tags[i]) then Fail(RaiseAtLine(MissingRequiredChildElement, e.line, [tags[i]]))
    else RequiredChildrenFrom(e, tags, i + 1)
  }

  // ---------------------------------------------------------------------
  // validateElement

  /** The four checks in order, the required ones only when asked for. */
  function ValidateElement(e: Element, attrs: seq<string>, elems: AllowedElements, checkRequired: bool): (r: Outcome<TEException>)
    ensures r.Pass? <==>
      (forall i :: 0 <= i < |e.attributes| ==> e.attributes[i].name in attrs) &&
      (forall i :: 0 <= i < |e.children| ==> ChildAccepted(e, allowed := elems, ch := e.children[i])) &&
      (checkRequired ==>
        (forall i :: 0 <= i < |attrs| ==> HasAttribute(e, attrs[i])) &&
        (forall i :: 0 <= i < |elems| ==> HasChild(e, elems[i].0)))
  {
    var a := ValidateAttributes(e, attrs);
    if a.Fail? then a
    else
      var b := ValidateChildElements(e, elems);
      if b.Fail? then b
      else if !checkRequired then Pass
      else
        var c := ValidateRequiredAttributes(e, attrs);
        if c.Fail? then c
        else ValidateRequiredChildElements(e, Keys(elems))
  }

  // ---------------------------------------------------------------------
  // Properties

  lemma {:induction false} CountSeesTwo(children: seq<Child>, tag: string, i: nat, j: nat)
    requires i < j < |children| && IsChildNamed(children[i], tag) && IsChildNamed(children[j], tag)
    ensures CountDirectChildren(children, tag) >= 2
    decreases |children|
  {
    var prefix := children[..|children| - 1];
    if j == |children| - 1 {
      assert prefix[i] == children[i];
      assert CountDirectChildren(prefix, tag) > 0;
    } else {
      assert prefix[i] == children[i] && prefix[j] == children[j];
      CountSeesTwo(prefix, tag, i, j);
    }
  }

  /** Two children with the same tag, where the table allows that tag at
      most once, always make child validation fail. */
  lemma RepeatedTagIsRejected(e: Element, allowed: AllowedElements, tag: string, i: nat, j: nat)
    requires i < j < |e.children| && IsChildNamed(e.children[i], tag) && IsChildNamed(e.children[j], tag)
    requires Limit(allowed, tag) <= 1
    ensures ValidateChildElements(e, allowed).Fail?
  {
    CountSeesTwo(e.children, tag, i, j);
    assert !ChildAccepted(e, allowed, e.children[i]);
  }
}
