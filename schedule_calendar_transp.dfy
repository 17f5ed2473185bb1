// A model of the CalDAV schedule-calendar-transp property codec (section 9.1
// of RFC 6638): an immutable two-valued property, its validating
// constructor, its serializer and its deserializer.

/** The parts of the sabre/xml library the codec relies on. */
module SabreXml {

  /** A qualified element name in Clark notation: `{namespace}local`. */
  function Clark(ns: string, local: string): string
  {
    "{" + ns + "}" + local
  }

  /** Within one namespace, two Clark names are equal exactly when their
      local names are. */
  lemma {:induction false} ClarkInjective(ns: string, a: string, b: string)
    ensures Clark(ns, a) == Clark(ns, b) <==> a == b
  {
    var prefix := "{" + ns + "}";
    assert Clark(ns, a) == prefix + a && Clark(ns, b) == prefix + b;
    if Clark(ns, a) == Clark(ns, b) {
      assert (prefix + a)[|prefix|..] == a;
      assert (prefix + b)[|prefix|..] == b;
    }
  }

  /** The writer, seen as the append-only list of the names of the empty
      elements written to it, in order. */
  class Writer {
    var emitted: seq<string>

    constructor ()
      ensures emitted == []
    {
      emitted := [];
    }

    /** Writes one empty element called `name`. */
    method WriteElement(name: string)
      modifies this
      ensures emitted == old(emitted) + [name]
    {
      emitted := emitted + [name];
    }
  }
}

module CalDavXmlProperty {
  import opened SabreXml

  const TRANSPARENT: string := "transparent"
  const OPAQUE: string := "opaque"
  const INVALID_VALUE_MESSAGE: string :=
    "The value must either be specified as \"transparent\" or \"opaque\""

  datatype Option<+T> = None | Some(value: T)

  datatype Error = InvalidArgument(message: string)

  datatype Result<+T> = Success(value: T) | Failure(error: Error)

  /** The test the constructor applies: strict equality, no case folding. */
  predicate IsValidValue(s: string)
  {
    s == TRANSPARENT || s == OPAQUE
  }

  datatype TranspProperty = TranspProperty(value: string)

  /** The property object: its value is always one of the two constants. */
  type ScheduleCalendarTransp = p: TranspProperty | IsValidValue(p.value)
    witness TranspProperty(OPAQUE)

  /** The constructor: it accepts exactly "transparent" and "opaque" and
      keeps the string it was given; anything else is an invalid argument. */
  function New(value: string): (r: Result<ScheduleCalendarTransp>)
    ensures r.Success? <==> IsValidValue(value)
    ensures r.Success? ==> GetValue(r.value) == value
    ensures r.Failure? ==> r.error == InvalidArgument(INVALID_VALUE_MESSAGE)
  {
    if !IsValidValue(value) then
      Failure(InvalidArgument(INVALID_VALUE_MESSAGE))
    else
      Success(TranspProperty(value))
  }

  /** The stored value, which is one of the two constants. */
  function GetValue(p: ScheduleCalendarTransp): (r: string)
    ensures IsValidValue(r)
  {
    p.value
  }

  /** Constructing from a property's own value gives the property back. */
  lemma NewGetValue(p: ScheduleCalendarTransp)
    ensures New(GetValue(p)) == Success(p)
  {
  }

  /** Near misses of the two valid strings are all rejected. */
  lemma NewRejectsNearMisses()
    ensures New("Transparent").Failure?
    ensures New("").Failure?
    ensures New("TRANSPARENT ").Failure?
    ensures New("foo").Failure?
  {
  }

  function OpaqueTag(ns: string): string
  {
    Clark(ns, OPAQUE)
  }

  function TransparentTag(ns: string): string
  {
    Clark(ns, TRANSPARENT)
  }

  /** The list of element names the serializer writes for `p`: one empty
      element in the CalDAV namespace, named after the value. */
  function SerializedElements(ns: string, p: ScheduleCalendarTransp): (r: seq<string>)
    ensures |r| == 1
    ensures r[0] == Clark(ns, GetValue(p))
    ensures Recognise(ns, r[0]) == Some(GetValue(p))
  {
    // A switch on the two constants with no default: the type leaves no third case.
    if p.value == TRANSPARENT then [TransparentTag(ns)]
    else if p.value == OPAQUE then [OpaqueTag(ns)]
    else []
  }

  /** Writes the property's inner XML: exactly one element, no wrapper. */
  method XmlSerialize(ns: string, p: ScheduleCalendarTransp, w: Writer)
    modifies w
    ensures w.emitted == old(w.emitted) + SerializedElements(ns, p)
  {
    if p.value == TRANSPARENT {
      w.WriteElement(TransparentTag(ns));
    } else if p.value == OPAQUE {
      w.WriteElement(OpaqueTag(ns));
    }
  }

  /** What one child element contributes to the deserializer's scan: the
      value it names, or None when the scan ignores it. */
  function Recognise(ns: string, name: string): (r: Option<string>)
    ensures r.Some? <==> name == OpaqueTag(ns) || name == TransparentTag(ns)
    ensures r.Some? ==> IsValidValue(r.value) && Clark(ns, r.value) == name
  {
    if name == OpaqueTag(ns) then Some(OPAQUE)
    else if name == TransparentTag(ns) then Some(TRANSPARENT)
    else None
  }

  /** The value named by the last recognised child, if any. */
  function LastRecognised(ns: string, elems: seq<string>): (r: Option<string>)
    ensures r.Some? ==> IsValidValue(r.value) && Clark(ns, r.value) in elems
    decreases |elems|
  {
    if elems == [] then None
    else
      match Recognise(ns, elems[|elems| - 1])
      case Some(v) => Some(v)
      case None => LastRecognised(ns, elems[..|elems| - 1])
  }

  /** The deserializer's result for the ordered child names `elems`: None
      when no child is recognised, otherwise the property constructed from
      the last recognised child. */
  function Deserialize(ns: string, elems: seq<string>): Option<ScheduleCalendarTransp>
  {
    match LastRecognised(ns, elems)
    case None => None
    case Some(v) => Some(New(v).value)
  }

  /** The deserializer: a scan of the children in document order in which
      each recognised child overwrites the candidate value. */
  method XmlDeserialize(ns: string, elems: seq<string>) returns (r: Option<ScheduleCalendarTransp>)
    ensures r == Deserialize(ns, elems)
  {
    var value: Option<string> := None;
    for i := 0 to |elems|
      invariant value == LastRecognised(ns, elems[..i])
    {
      var elem := elems[i];
      if elem == OpaqueTag(ns) {
        value := Some(OPAQUE);
      } else if elem == TransparentTag(ns) {
        value := Some(TRANSPARENT);
      }
      assert elems[..i + 1][..i] == elems[..i];
    }
    assert elems[..|elems|] == elems;
    if value.None? {
      return None;
    }
    r := Some(New(value.value).value);
  }

  /** Keeps only the children the deserializer recognises, in order. */
  function RecognisedChildren(ns: string, elems: seq<string>): (r: seq<string>)
    ensures |r| <= |elems|
    ensures forall i | 0 <= i < |r| :: Recognise(ns, r[i]).Some?
    ensures forall x | x in r :: x in elems
    ensures forall k | 0 <= k < |elems| && Recognise(ns, elems[k]).Some? :: elems[k] in r
    decreases |elems|
  {
    if elems == [] then []
    else
      var init := RecognisedChildren(ns, elems[..|elems| - 1]);
      if Recognise(ns, elems[|elems| - 1]).Some? then init + [elems[|elems| - 1]] else init
  }

  /** The scan of a concatenation: the second part decides when it holds a
      recognised child, the first part otherwise. */
  lemma {:induction false} LastRecognisedAppend(ns: string, a: seq<string>, b: seq<string>)
    ensures LastRecognised(ns, a + b) ==
            if LastRecognised(ns, b).Some? then LastRecognised(ns, b) else LastRecognised(ns, a)
    decreases |b|
  {
    if b == [] {
      assert a + b == a;
    } else {
      var init := b[..|b| - 1];
      assert (a + b)[..|a + b| - 1] == a + init;
      assert (a + b)[|a + b| - 1] == b[|b| - 1];
      LastRecognisedAppend(ns, a, init);
    }
  }

  /** No recognised value exactly when no child is recognised. */
  lemma {:induction false} LastRecognisedNone(ns: string, elems: seq<string>)
    ensures LastRecognised(ns, elems).None? <==>
            forall i | 0 <= i < |elems| :: Recognise(ns, elems[i]).None?
    decreases |elems|
  {
    if elems != [] {
      var init := elems[..|elems| - 1];
      LastRecognisedNone(ns, init);
      if Recognise(ns, elems[|elems| - 1]).None? {
        forall i | 0 <= i < |elems| - 1
          ensures Recognise(ns, elems[i]) == Recognise(ns, init[i])
        {
        }
      }
    }
  }

  /** The deserializer returns null exactly when no child is called
      `{ns}opaque` or `{ns}transparent`; in particular for no children. */
  lemma NullIffNoRecognisedChild(ns: string, elems: seq<string>)
    ensures Deserialize(ns, elems).None? <==>
            forall i | 0 <= i < |elems| :: elems[i] != OpaqueTag(ns) && elems[i] != TransparentTag(ns)
    ensures Deserialize(ns, []) == None
  {
    LastRecognisedNone(ns, elems);
  }

  /** Last match wins: when child `i` is recognised and no later child is,
      the result carries the value child `i` names. */
  lemma LastMatchWins(ns: string, elems: seq<string>, i: int)
    requires 0 <= i < |elems| && Recognise(ns, elems[i]).Some?
    requires forall j | i < j < |elems| :: Recognise(ns, elems[j]).None?
    ensures Deserialize(ns, elems).Some?
    ensures Clark(ns, GetValue(Deserialize(ns, elems).value)) == elems[i]
    ensures GetValue(Deserialize(ns, elems).value) == Recognise(ns, elems[i]).value
  {
    var head, tail := elems[..i + 1], elems[i + 1..];
    assert elems == head + tail;
    LastRecognisedNone(ns, tail);
    LastRecognisedAppend(ns, head, tail);
    assert head[..|head| - 1] == elems[..i];
    ClarkInjective(ns, GetValue(Deserialize(ns, elems).value), Recognise(ns, elems[i]).value);
  }

  /** Conversely, a non-null result always comes from a recognised child
      after which no child is recognised, and serializing the result gives
      back exactly that child's name. */
  lemma {:induction false} DeserializedFromLastMatch(ns: string, elems: seq<string>)
    requires Deserialize(ns, elems).Some?
    ensures exists i | 0 <= i < |elems| ::
              SerializedElements(ns, Deserialize(ns, elems).value) == [elems[i]] &&
              forall j | i < j < |elems| :: Recognise(ns, elems[j]).None?
    decreases |elems|
  {
    var p := Deserialize(ns, elems).value;
    var k := |elems| - 1;
    var init := elems[..k];
    if Recognise(ns, elems[k]).Some? {
      assert SerializedElements(ns, p) == [elems[k]];
    } else {
      assert Deserialize(ns, init) == Deserialize(ns, elems);
      DeserializedFromLastMatch(ns, init);
      var i :| 0 <= i < |init| &&
               SerializedElements(ns, p) == [init[i]] &&
               forall j | i < j < |init| :: Recognise(ns, init[j]).None?;
      assert init[i] == elems[i];
      forall j | i < j < |elems|
        ensures Recognise(ns, elems[j]).None?
      {
        if j < k {
          assert init[j] == elems[j];
        }
      }
    }
  }

  /** Children that are neither recognised tag are ignored: inserting or
      removing one anywhere does not change the result. */
  lemma UnrecognisedChildIgnored(ns: string, a: seq<string>, x: string, b: seq<string>)
    requires x != OpaqueTag(ns) && x != TransparentTag(ns)
    ensures Deserialize(ns, a + [x] + b) == Deserialize(ns, a + b)
  {
    LastRecognisedAppend(ns, a + [x], b);
    LastRecognisedAppend(ns, a, [x]);
    LastRecognisedAppend(ns, a, b);
    assert [x][..0] == [];
  }

  /** Only the recognised children matter: dropping every other child does
      not change the result. */
  lemma {:induction false} OnlyRecognisedChildrenMatter(ns: string, elems: seq<string>)
    ensures Deserialize(ns, RecognisedChildren(ns, elems)) == Deserialize(ns, elems)
    decreases |elems|
  {
    if elems != [] {
      var k := |elems| - 1;
      var init := elems[..k];
      OnlyRecognisedChildrenMatter(ns, init);
      var rest := RecognisedChildren(ns, init);
      if Recognise(ns, elems[k]).Some? {
        assert (rest + [elems[k]])[|rest|] == elems[k];
      } else {
        assert elems == init + [elems[k]];
        UnrecognisedChildIgnored(ns, init, elems[k], []);
        assert init + [] == init;
      }
    }
  }

  /** The two orders of a malformed body holding both tags. */
  lemma TieBreakExamples(ns: string)
    ensures Deserialize(ns, [TransparentTag(ns), OpaqueTag(ns)]) == Some(TranspProperty(OPAQUE))
    ensures Deserialize(ns, [OpaqueTag(ns), TransparentTag(ns)]) == Some(TranspProperty(TRANSPARENT))
  {
  }

  /** Round trip: the children written by the serializer deserialize to the
      property that wrote them. */
  lemma RoundTrip(ns: string, p: ScheduleCalendarTransp)
    ensures Deserialize(ns, SerializedElements(ns, p)) == Some(p)
  {
  }

  /** Serializing into a writer, then reading back the elements that call
      added, gives the property. */
  method SerializeThenDeserialize(ns: string, p: ScheduleCalendarTransp, w: Writer)
    returns (r: Option<ScheduleCalendarTransp>)
    modifies w
    ensures w.emitted == old(w.emitted) + SerializedElements(ns, p)
    ensures r == Some(p)
  {
    var before := |w.emitted|;
    XmlSerialize(ns, p, w);
    r := XmlDeserialize(ns, w.emitted[before..]);
    RoundTrip(ns, p);
  }
}
