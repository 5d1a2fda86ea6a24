/** Domain names: dotted text, its labels, and the length-prefixed form of section 3.1 of RFC 1035. */
module DnsNames {
  import opened Octets
  import opened Wrappers
  import opened Sequences

  const DOT: Byte := '.' as int

  type Label = seq<Byte>

  /** A C string: the zero byte only ends it. */
  predicate NoZero(s: seq<Byte>) {
    forall b <- s :: b != 0
  }

  // ---------------------------------------------------------------------------------------------
  // Dotted text
  // ---------------------------------------------------------------------------------------------

  /** The labels between the dots of `domain`, the last one possibly still growing. */
  function Labels(domain: seq<Byte>): (labels: seq<Label>)
    ensures labels != []
  {
    if domain == [] then [[]]
    else
      var front, last := Labels(domain[..|domain| - 1]), domain[|domain| - 1];
      if last == DOT then front + [[]]
      else front[..|front| - 1] + [front[|front| - 1] + [last]]
  }

  function Dotted(labels: seq<Label>): seq<Byte>
    requires labels != []
  {
    if |labels| == 1 then labels[0] else Dotted(labels[..|labels| - 1]) + [DOT] + labels[|labels| - 1]
  }

  predicate DotFree(labels: seq<Label>) {
    forall part <- labels :: DOT !in part
  }

  /** The labels of a text are what stands between its dots. */
  lemma {:induction false} DottedLabels(domain: seq<Byte>)
    ensures Dotted(Labels(domain)) == domain && DotFree(Labels(domain))
  {
    if domain != [] {
      var before, last := domain[..|domain| - 1], domain[|domain| - 1];
      DottedLabels(before);
      assert domain == before + [last];
      LabelsOfLonger(before, last);
      hide Labels;
      var front, labels := Labels(before), Labels(domain);
      if last == DOT {
        assert labels[..|front|] == front;
      } else {
        var grown := front[|front| - 1] + [last];
        assert labels[..|labels| - 1] == front[..|front| - 1];
        assert forall part <- labels :: part in front || part == grown;
        assert front[|front| - 1] in front;
      }
    }
  }

  /** There is no other way to cut a text at its dots. */
  lemma {:induction false} LabelsDotted(labels: seq<Label>)
    requires labels != [] && DotFree(labels)
    ensures Labels(Dotted(labels)) == labels
    decreases |labels|, |labels[|labels| - 1]|
  {
    hide Labels;
    var n := |labels| - 1;
    var last := labels[n];
    assert last in labels;
    if last != [] {
      var shorter := last[..|last| - 1];
      var before := labels[..n] + [shorter];
      assert before[..n] == labels[..n];
      assert forall part <- before :: part in labels || part == shorter;
      LabelsDotted(before);
      assert last == shorter + [last[|last| - 1]];
      assert Dotted(labels) == Dotted(before) + [last[|last| - 1]];
      assert labels == before[..n] + [last];
      LabelsOfLonger(Dotted(before), last[|last| - 1]);
    } else if n > 0 {
      LabelsDotted(labels[..n]);
      assert labels == labels[..n] + [[]];
      assert Dotted(labels) == Dotted(labels[..n]) + [DOT];
      LabelsOfLonger(Dotted(labels[..n]), DOT);
    } else {
      assert labels == [[]] && Dotted(labels) == [];
      LabelsOfNothing();
    }
  }

  lemma LabelsOfNothing()
    ensures Labels([]) == [[]]
  {
  }

  lemma LabelsOfLonger(domain: seq<Byte>, b: Byte)
    ensures var front := Labels(domain);
            Labels(domain + [b]) ==
            if b == DOT then front + [[]] else front[..|front| - 1] + [front[|front| - 1] + [b]]
  {
    assert (domain + [b])[..|domain|] == domain;
  }

  // ---------------------------------------------------------------------------------------------
  // The wire form
  // ---------------------------------------------------------------------------------------------

  function EncodeOne(part: Label): seq<Byte> {
    if part == [] then [] else [|part| % 0x100] + part
  }

  /** Each label behind its length; an empty label leaves nothing. The length has one byte. */
  function Encode(labels: seq<Label>): seq<Byte> {
    if labels == [] then []
    else Encode(labels[..|labels| - 1]) + EncodeOne(labels[|labels| - 1])
  }

  /** Reads a name as section 3.1 requires: labels of one to 63 bytes and a zero byte; the rest of the
      input is given back. */
  function Decode(bytes: seq<Byte>): Option<(seq<Label>, seq<Byte>)>
    decreases |bytes|
  {
    if bytes == [] then None
    else
      var len := bytes[0];
      if len == 0 then Some(([], bytes[1..]))
      else if len > 63 || 1 + len > |bytes| then None
      else
        match Decode(bytes[1 + len..])
        case None => None
        case Some((labels, rest)) => Some(([bytes[1..1 + len]] + labels, rest))
  }

  /** What section 3.1 allows as a label. */
  predicate Allowed(part: Label) {
    1 <= |part| <= 63
  }

  function NonEmpty(labels: seq<Label>): (kept: seq<Label>)
    ensures forall part <- kept :: part in labels && part != []
    ensures |kept| <= |labels|
  {
    if labels == [] then []
    else (if labels[0] == [] then [] else [labels[0]]) + NonEmpty(labels[1..])
  }

  lemma {:induction false} NonEmptyKeepsAll(labels: seq<Label>)
    ensures NonEmpty(labels) == labels <==> forall part <- labels :: part != []
  {
    if labels != [] {
      NonEmptyKeepsAll(labels[1..]);
      assert labels == [labels[0]] + labels[1..];
      assert labels[0] in labels;
      if labels[0] == [] {
        assert |NonEmpty(labels)| < |labels|;
      } else {
        assert NonEmpty(labels)[1..] == NonEmpty(labels[1..]);
        assert forall part <- labels :: part == labels[0] || part in labels[1..];
        assert forall part <- labels[1..] :: part in labels;
        if NonEmpty(labels[1..]) == labels[1..] {
          assert NonEmpty(labels) == [labels[0]] + labels[1..];
        }
      }
    }
  }

  lemma EncodeLast(labels: seq<Label>)
    requires labels != []
    ensures Encode(labels) == Encode(labels[..|labels| - 1]) + EncodeOne(labels[|labels| - 1])
  {
  }

  lemma {:induction false} EncodeFromFront(labels: seq<Label>)
    requires labels != []
    ensures Encode(labels) == EncodeOne(labels[0]) + Encode(labels[1..])
  {
    hide Encode, EncodeOne;
    var n := |labels| - 1;
    EncodeLast(labels);
    if n > 0 {
      EncodeFromFront(labels[..n]);
      EncodeLast(labels[1..]);
      assert labels[1..][..n - 1] == labels[..n][1..];
      Regroup(EncodeOne(labels[0]), Encode(labels[1..][..n - 1]), EncodeOne(labels[n]));
    } else {
      NothingEncoded();
      assert labels[..0] == [] && labels[1..] == [];
    }
  }

  lemma {:induction false} EncodeHasNoZero(labels: seq<Label>)
    requires forall part <- labels :: NoZero(part) && |part| <= 255
    ensures NoZero(Encode(labels))
  {
    if labels != [] {
      var front, last := labels[..|labels| - 1], labels[|labels| - 1];
      assert last in labels;
      assert forall part <- front :: part in labels;
      EncodeHasNoZero(front);
      hide Encode;
      assert NoZero(EncodeOne(last));
    }
  }

  /** The encoded name reads back as the labels that are not empty, when none is longer than 63 bytes,
      and not at all otherwise. */
  lemma {:induction false} DecodeEncode(labels: seq<Label>, rest: seq<Byte>)
    requires forall part <- labels :: |part| <= 255
    ensures Decode(Encode(labels) + [0] + rest) ==
            if AllShort(labels) then Some((NonEmpty(labels), rest)) else None
  {
    hide Encode, Decode, EncodeOne, NonEmpty, AllShort;
    if labels == [] {
      DecodeNone(rest);
      assert Encode(labels) + [0] + rest == [0] + rest;
    } else {
      var others := Encode(labels[1..]) + [0] + rest;
      EncodeFromFront(labels);
      DecodeEncode(labels[1..], rest);
      assert Encode(labels) + [0] + rest == EncodeOne(labels[0]) + others;
      FromFront(labels);
      if labels[0] != [] {
        DecodeFirst(labels[0], others);
      } else {
        assert EncodeOne([]) + others == others;
        assert [] + NonEmpty(labels[1..]) == NonEmpty(labels[1..]);
      }
    }
  }

  predicate AllShort(labels: seq<Label>) {
    forall part <- labels :: |part| <= 63
  }

  lemma FromFront(labels: seq<Label>)
    requires labels != []
    ensures AllShort(labels) <==> |labels[0]| <= 63 && AllShort(labels[1..])
    ensures NonEmpty(labels) == (if labels[0] == [] then [] else [labels[0]]) + NonEmpty(labels[1..])
    ensures EncodeOne([]) == []
  {
    assert labels[0] in labels;
    assert forall part <- labels :: part == labels[0] || part in labels[1..];
  }

  lemma DecodeNone(rest: seq<Byte>)
    ensures Encode([]) == [] && NonEmpty([]) == [] && AllShort([])
    ensures Decode([0] + rest) == Some(([], rest))
  {
    assert ([0] + rest)[1..] == rest;
  }

  lemma DecodeFirst(part: Label, others: seq<Byte>)
    requires 1 <= |part| <= 255
    ensures Decode(EncodeOne(part) + others) ==
            if |part| > 63 then None
            else match Decode(others)
                 case None => None
                 case Some((labels, rest)) => Some(([part] + labels, rest))
  {
    var bytes := EncodeOne(part) + others;
    assert bytes[0] == |part|;
    assert bytes[1..1 + |part|] == part && bytes[1 + |part|..] == others;
  }

  /** The name `a.bc`: one `a`, then two, `bc`. */
  lemma ShortName()
    ensures Labels([97, 46, 98, 99]) == [[97], [98, 99]]
    ensures Encode([[97], [98, 99]]) == [1, 97, 2, 98, 99]
  {
    var part, other: Label := [97], [98, 99];
    var labels := [part, other];
    assert DotFree(labels);
    LabelsDotted(labels);
    assert labels[..1] == [part];
    assert Dotted(labels) == [97, 46, 98, 99];
    var none: seq<Label> := [];
    assert [part][..0] == none;
    assert Encode([part]) == Encode(none) + EncodeOne(part);
  }

  /** What is read as labels and a rest was those labels encoded, a zero byte and the rest. */
  lemma {:induction false} DecodedLength(bytes: seq<Byte>)
    ensures match Decode(bytes)
            case None => true
            case Some((labels, rest)) => |bytes| == |Encode(labels)| + 1 + |rest|
    decreases |bytes|
  {
    hide Encode;
    assert Encode([]) == [] by { NothingEncoded(); }
    if bytes != [] && 0 < bytes[0] <= 63 && 1 + bytes[0] <= |bytes| {
      var len := bytes[0];
      DecodedLength(bytes[1 + len..]);
      match Decode(bytes[1 + len..])
      case None =>
      case Some((labels, rest)) =>
        EncodeMore(bytes[1..1 + len], labels);
    }
  }

  lemma NothingEncoded()
    ensures Encode([]) == []
  {
  }

  lemma EncodeMore(part: Label, labels: seq<Label>)
    ensures |Encode([part] + labels)| == |EncodeOne(part)| + |Encode(labels)|
  {
    hide Encode;
    EncodeFromFront([part] + labels);
    assert ([part] + labels)[1..] == labels;
  }

  /** The name that the resolver sends for a domain reads back as the labels of the domain exactly when
      the standard allows each of them. */
  lemma NameRoundTripExactly(domain: seq<Byte>, rest: seq<Byte>)
    requires forall part <- Labels(domain) :: |part| <= 255
    ensures Decode(Encode(Labels(domain)) + [0] + rest) == Some((Labels(domain), rest))
            <==> forall part <- Labels(domain) :: Allowed(part)
  {
    DecodeEncode(Labels(domain), rest);
    NonEmptyKeepsAll(Labels(domain));
  }
}
