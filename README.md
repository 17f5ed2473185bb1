# schedule-calendar-transp property codec

A Dafny model of `Sabre\CalDAV\Xml\Property\ScheduleCalendarTransp`, the XML
codec for the CalDAV `schedule-calendar-transp` property (section 9.1 of
RFC 6638). The property says whether a calendar counts for free-busy
queries. It holds one of two strings, `transparent` or `opaque`.

The file `schedule_calendar_transp.dfy` holds two modules:

- `SabreXml` stands in for the sabre/xml library. It has Clark-notation
  names (`{namespace}local`) and a `Writer` class. The writer is an
  append-only list of the names of the empty elements written to it.
- `CalDavXmlProperty` is the property class.
  - The object never changes after construction. So it is a value: the
    datatype `TranspProperty`, restricted by the subset type
    `ScheduleCalendarTransp` to the two valid strings. The class invariant is
    therefore part of the type.
  - The constructor is the function `New`. It returns `Failure(InvalidArgument(..))`
    where the source throws `InvalidArgumentException`.
  - The serializer is the method `XmlSerialize`, which appends to a `Writer`.
    It is specified by the function `SerializedElements`.
  - The deserializer is the method `XmlDeserialize`. It loops over the child
    names in document order, as the source's `foreach` does. It is specified
    by the function `Deserialize`, which is built on `LastRecognised`, the
    last-match-wins scan.

The CalDAV namespace `Plugin::NS_CALDAV` is not shown in the source. Every
operation therefore takes it as a parameter `ns`, and every lemma holds for
every namespace. The child list that `Elements::xmlDeserialize` returns is a
`seq<string>` of Clark names in document order. Children are matched on
these strings, as the source does.

## Model

| member | source | states |
|---|---|---|
| `SabreXml.ClarkInjective` | lib/CalDAV/Xml/Property/ScheduleCalendarTransp.php:124-130 | within one namespace, two qualified names are equal exactly when their local names are, so `{ns}opaque` and `{ns}transparent` never match the same child |
| `CalDavXmlProperty.New` | lib/CalDAV/Xml/Property/ScheduleCalendarTransp.php:44-51 | construction succeeds exactly for `"transparent"` and `"opaque"` (strict equality); the object then holds the string it was given; any other input fails with the invalid-argument message |
| `CalDavXmlProperty.GetValue` | lib/CalDAV/Xml/Property/ScheduleCalendarTransp.php:58-62 | the stored value is always one of the two constants |
| `CalDavXmlProperty.NewGetValue` | lib/CalDAV/Xml/Property/ScheduleCalendarTransp.php:44-62 | constructing from a property's own value gives back that property |
| `CalDavXmlProperty.NewRejectsNearMisses` | lib/CalDAV/Xml/Property/ScheduleCalendarTransp.php:46-48 | `"Transparent"`, `""`, `"TRANSPARENT "` and `"foo"` are rejected: no case folding and no trimming |
| `CalDavXmlProperty.SerializedElements` | lib/CalDAV/Xml/Property/ScheduleCalendarTransp.php:83-94 | the serializer's output is exactly one element, `{ns}` plus the value's name, and the deserializer recognises it as that value |
| `CalDavXmlProperty.XmlSerialize` | lib/CalDAV/Xml/Property/ScheduleCalendarTransp.php:83-94 | the writer gains exactly the one element of `SerializedElements`; nothing already written changes and no parent element is written |
| `CalDavXmlProperty.Recognise` | lib/CalDAV/Xml/Property/ScheduleCalendarTransp.php:124-131 | a child counts exactly when its name is `{ns}opaque` or `{ns}transparent`; the value it names is valid and its qualified name is that child's name |
| `CalDavXmlProperty.LastRecognised` | lib/CalDAV/Xml/Property/ScheduleCalendarTransp.php:121-136 | the scanned candidate is always a valid value named by some child, so the construction at the end of the deserializer cannot fail |
| `CalDavXmlProperty.XmlDeserialize` | lib/CalDAV/Xml/Property/ScheduleCalendarTransp.php:117-138 | the loop that overwrites the candidate on each recognised child returns exactly `Deserialize` of the child list |
| `CalDavXmlProperty.RecognisedChildren` | lib/CalDAV/Xml/Property/ScheduleCalendarTransp.php:123-131 | the recognised children of a list: every recognised child is kept, every kept element is recognised and comes from the list, and nothing is added |
| `CalDavXmlProperty.LastRecognisedAppend` | lib/CalDAV/Xml/Property/ScheduleCalendarTransp.php:123-132 | on a concatenation of child lists, the later part decides when it holds a recognised child, and the earlier part decides otherwise |
| `CalDavXmlProperty.LastRecognisedNone` | lib/CalDAV/Xml/Property/ScheduleCalendarTransp.php:121-132 | the candidate stays null exactly when no child is recognised |
| `CalDavXmlProperty.NullIffNoRecognisedChild` | lib/CalDAV/Xml/Property/ScheduleCalendarTransp.php:121-134 | the deserializer returns null exactly when no child is named `{ns}opaque` or `{ns}transparent`, and for an empty child list |
| `CalDavXmlProperty.LastMatchWins` | lib/CalDAV/Xml/Property/ScheduleCalendarTransp.php:123-136 | if child `i` is recognised and no later child is, the result is non-null, its value is the value child `i` names, and its qualified name is child `i`'s name |
| `CalDavXmlProperty.DeserializedFromLastMatch` | lib/CalDAV/Xml/Property/ScheduleCalendarTransp.php:123-136 | conversely, a non-null result comes from a recognised child with no recognised child after it, and serializing the result gives back exactly that child's name |
| `CalDavXmlProperty.UnrecognisedChildIgnored` | lib/CalDAV/Xml/Property/ScheduleCalendarTransp.php:123-131 | inserting or removing a child that is neither recognised name, at any position, does not change the result |
| `CalDavXmlProperty.OnlyRecognisedChildrenMatter` | lib/CalDAV/Xml/Property/ScheduleCalendarTransp.php:123-131 | dropping every unrecognised child does not change the result |
| `CalDavXmlProperty.TieBreakExamples` | lib/CalDAV/Xml/Property/ScheduleCalendarTransp.php:123-132 | `[transparent, opaque]` gives opaque and `[opaque, transparent]` gives transparent |
| `CalDavXmlProperty.RoundTrip` | lib/CalDAV/Xml/Property/ScheduleCalendarTransp.php:83-138 | deserializing the children the serializer writes gives back the same property |
| `CalDavXmlProperty.SerializeThenDeserialize` | lib/CalDAV/Xml/Property/ScheduleCalendarTransp.php:83-138 | the same round trip through the two methods: the writer ends up holding its old elements plus exactly the one element of `SerializedElements`, and those new elements, read back by `XmlDeserialize`, give the property |

## Left out

- The internals of the sabre/xml `Reader`, `Elements::xmlDeserialize` and `parseInnerTree` are not modelled: cursor movement, namespace resolution, attributes and text content. The deserializer starts from the ordered list of child names. That the cursor ends up after the element is the library's promise and is not modelled.
- The internals of the sabre/xml `Writer` are not modelled: escaping, namespace prefixes and nesting. It is only the list of emitted element names.
- The concrete value of `Plugin::NS_CALDAV` is not modelled. It is the parameter `ns`, and the results hold for any value.
- The `Sabre\Xml\Element` interface and how the class is registered with the reader and writer are not modelled.
- New: takes a `string`. The PHP constructor accepts a value of any type, and its strict `!==` comparison rejects every non-string; values of other types are not modelled.
- PHP exceptions are not modelled. The constructor's `InvalidArgumentException` is the `Failure` value of `New`.
- PHP's loose `switch` comparison is not modelled. Every compared string starts with `{` or is a non-numeric constant, so it acts as plain string equality.
- Object identity is not modelled. The object never changes after construction, so a value stands for it. That serializing twice gives the same output follows because `SerializedElements` is a function of the property and the namespace.
