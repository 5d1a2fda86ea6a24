/** The DNS client: building the question for a domain in its fixed text buffer. */
module DnsQuestion {
  import opened Octets
  import opened DnsNames

  /** A 16-bit number in network order. */
  function Net16(v: nat): (b: seq<Byte>)
    requires v < 0x1_0000
    ensures |b| == 2
  {
    [v / 0x100, v % 0x100]
  }

  function Host16(b: seq<Byte>): (v: nat)
    requires |b| == 2
    ensures v < 0x1_0000 && Net16(v) == b
  {
    0x100 * (b[0] as int) + b[1]
  }

  /** What a C string function sees of `s`. */
  function UpToZero(s: seq<Byte>): (t: seq<Byte>)
    ensures |t| <= |s| && t == s[..|t|] && NoZero(t) && (|t| < |s| ==> s[|t|] == 0)
  {
    if s == [] || s[0] == 0 then [] else [s[0]] + UpToZero(s[1..])
  }

  lemma {:induction false} UpToZeroIs(t: seq<Byte>, rest: seq<Byte>)
    requires NoZero(t) && rest != [] && rest[0] == 0
    ensures UpToZero(t + rest) == t
  {
    if t == [] {
      assert t + rest == rest;
    } else {
      assert (t + rest)[1..] == t[1..] + rest;
      assert forall b <- t[1..] :: b in t;
      assert t[0] in t;
      UpToZeroIs(t[1..], rest);
      assert t == [t[0]] + t[1..];
    }
  }

  method StrLen(s: array<Byte>) returns (n: nat)
    requires exists i :: 0 <= i < s.Length && s[i] == 0
    ensures n < s.Length && s[n] == 0 && NoZero(s[..n])
  {
    n := 0;
    while s[n] != 0
      invariant n < s.Length && NoZero(s[..n])
      invariant exists i :: n <= i < s.Length && s[i] == 0
      decreases s.Length - n
    {
      n := n + 1;
    }
  }

  // ---------------------------------------------------------------------------------------------
  // Building the question
  // ---------------------------------------------------------------------------------------------

  class Question {
    const domain: array<Byte>
    var flags: seq<Byte>

    constructor ()
      ensures fresh(domain) && domain.Length == 1000
    {
      domain := new Byte[1000];
      flags := Zeros(4);
    }
  }

  ghost predicate LabelsFit(domain: seq<Byte>) {
    forall part <- Labels(domain) :: |part| <= 255
  }

  lemma EncodeOneGrows(part: Label, b: Byte)
    ensures |EncodeOne(part)| <= |EncodeOne(part + [b])|
  {
  }

  /** Reading on only makes labels and the encoded name longer. */
  lemma ReadOn(domain: seq<Byte>, b: Byte)
    ensures LabelsFit(domain + [b]) ==> LabelsFit(domain)
    ensures |Encode(Labels(domain))| <= |Encode(Labels(domain + [b]))|
    ensures var before, after := Labels(domain), Labels(domain + [b]);
            if b == DOT then after[..|after| - 1] == before && after[|after| - 1] == []
            else after[..|after| - 1] == before[..|before| - 1]
                 && after[|after| - 1] == before[|before| - 1] + [b]
  {
    hide Labels, Encode, EncodeOne;
    var before, after := Labels(domain), Labels(domain + [b]);
    LabelsOfLonger(domain, b);
    var n := |before| - 1;
    EncodeLast(before);
    EncodeLast(after);
    if b == DOT {
      assert after[..n + 1] == before;
      assert forall part <- before :: part in after;
    } else {
      assert after[..n] == before[..n];
      assert |EncodeOne(before[n])| <= |EncodeOne(after[n])| by { EncodeOneGrows(before[n], b); }
      assert forall part <- before :: part in after || part == before[n];
      assert after[n] in after;
    }
  }

  lemma {:induction false} Prefixes(domain: seq<Byte>, i: nat)
    requires i <= |domain| && LabelsFit(domain)
    ensures LabelsFit(domain[..i]) && |Encode(Labels(domain[..i]))| <= |Encode(Labels(domain))|
    decreases |domain| - i
  {
    hide Labels, Encode, LabelsFit;
    if i == |domain| {
      assert domain[..i] == domain;
    } else {
      Prefixes(domain, i + 1);
      ReadOn(domain[..i], domain[i]);
      assert domain[..i + 1] == domain[..i] + [domain[i]];
    }
  }

  /** The buffer holds `text`, and zeros behind it. */
  ghost predicate Holds(buffer: seq<Byte>, text: seq<Byte>) {
    |text| < |buffer| && buffer == text + Zeros(|buffer| - |text|)
  }

  lemma EndsThere(buffer: seq<Byte>, text: seq<Byte>, n: nat)
    requires NoZero(text) && Holds(buffer, text)
    requires n < |buffer| && buffer[n] == 0 && NoZero(buffer[..n])
    ensures n == |text|
  {
    UpToZeroIs(text, Zeros(|buffer| - |text|));
    assert buffer == buffer[..n] + buffer[n..];
    UpToZeroIs(buffer[..n], buffer[n..]);
  }

  lemma HasEnd(buffer: seq<Byte>, text: seq<Byte>)
    requires Holds(buffer, text)
    ensures buffer[|text|] == 0
  {
  }

  lemma OneMore(buffer: seq<Byte>, text: seq<Byte>, b: Byte)
    requires Holds(buffer, text) && |text| + 1 < |buffer|
    ensures Holds(buffer[|text| := b], text + [b])
  {
  }

  /** `strncpy` behind the string that is there already. */
  method Append(text: array<Byte>, word: array<Byte>, count: nat, ghost there: seq<Byte>)
    requires text != word && count <= word.Length && |there| + count < text.Length
    requires Holds(text[..], there) && NoZero(there)
    modifies text
    ensures Holds(text[..], there + word[..count])
  {
    hide Holds;
    HasEnd(text[..], there);
    var end := StrLen(text);
    EndsThere(text[..], there, end);
    assert there + word[..0] == there;
    for i := 0 to count
      invariant Holds(text[..], there + word[..i])
    {
      ghost var was := text[..];
      OneMore(was, there + word[..i], word[i]);
      text[end + i] := word[i];
      assert text[..] == was[end + i := word[i]];
      assert there + word[..i + 1] == there + word[..i] + [word[i]];
    }
  }

  /** One label written behind those that are there already. */
  method AppendLabel(text: array<Byte>, word: array<Byte>, wordLen: nat, ghost there: seq<Byte>)
    requires text != word && wordLen < 0x100 <= word.Length && |there| + |EncodeOne(word[..wordLen])| < text.Length
    requires NoZero(there) && Holds(text[..], there)
    modifies text
    ensures Holds(text[..], there + EncodeOne(word[..wordLen]))
  {
    hide Holds, NoZero, EncodeOne;
    EncodeOneIs(word[..wordLen]);
    ghost var part := word[..wordLen];
    ghost var started := there + if wordLen == 0 then [] else [wordLen];
    NoZeroOneMore(there, wordLen);
    assert started + part == there + EncodeOne(part);
    AppendLength(text, wordLen, there);
    Append(text, word, wordLen, started);
  }

  /** The length byte behind the string that is there; a zero is no more than its end. */
  method AppendLength(text: array<Byte>, len: Byte, ghost there: seq<Byte>)
    requires |there| + 1 < text.Length || (len == 0 && |there| < text.Length)
    requires Holds(text[..], there) && NoZero(there)
    modifies text
    ensures Holds(text[..], there + if len == 0 then [] else [len])
  {
    hide Holds, NoZero;
    ghost var was := text[..];
    HasEnd(was, there);
    var end := StrLen(text);
    EndsThere(was, there, end);
    text[end] := len;
    assert text[..] == was[end := len];
    if len == 0 {
      assert text[..] == was && there + [] == there;
    } else {
      OneMore(was, there, len);
    }
  }

  lemma EncodeOneIs(part: Label)
    requires |part| < 0x100
    ensures EncodeOne(part) == (if |part| == 0 then [] else [|part|]) + part
  {
  }

  lemma NoZeroOneMore(s: seq<Byte>, b: Byte)
    requires NoZero(s)
    ensures NoZero(s + if b == 0 then [] else [b])
  {
  }

  /** After the bytes `read` the buffer holds the complete labels and the word the growing one. */
  ghost predicate Reading(buffer: seq<Byte>, read: seq<Byte>, word: seq<Byte>) {
    var labels := Labels(read);
    word == labels[|labels| - 1] && Holds(buffer, Encode(labels[..|labels| - 1]))
  }

  lemma AtStart(buffer: seq<Byte>, domain: seq<Byte>)
    requires buffer == Zeros(|buffer|) && buffer != []
    ensures Reading(buffer, domain[..0], [])
  {
    assert domain[..0] == [] && Encode([]) == [];
    assert buffer == [] + Zeros(|buffer|);
    assert Labels([])[..0] == [];
  }

  /** Labels without zero bytes encode without zero bytes. */
  lemma EncodedNoZero(domain: seq<Byte>)
    requires NoZero(domain) && LabelsFit(domain)
    ensures var labels := Labels(domain);
            NoZero(Encode(labels)) && NoZero(Encode(labels[..|labels| - 1]))
  {
    LabelsNoZero(domain);
    EncodeHasNoZero(Labels(domain));
    var front := Labels(domain)[..|Labels(domain)| - 1];
    assert forall part <- front :: part in Labels(domain);
    EncodeHasNoZero(Labels(domain)[..|Labels(domain)| - 1]);
  }

  lemma {:induction false} LabelsNoZero(domain: seq<Byte>)
    requires NoZero(domain)
    ensures forall part <- Labels(domain) :: NoZero(part)
  {
    if domain != [] {
      var before, b := domain[..|domain| - 1], domain[|domain| - 1];
      assert b in domain;
      assert forall c <- before :: c in domain;
      LabelsNoZero(before);
      assert domain == before + [b];
      LabelsOfLonger(before, b);
      var front := Labels(before);
      assert front[|front| - 1] in front;
      assert forall part <- front[..|front| - 1] :: part in front;
      assert NoZero(front[|front| - 1] + [b]);
    }
  }

  lemma BeforeByte(buffer: seq<Byte>, domain: seq<Byte>, i: nat, word: seq<Byte>)
    requires NoZero(domain) && LabelsFit(domain) && |Encode(Labels(domain))| < |buffer|
    requires i <= |domain| && Reading(buffer, domain[..i], word)
    ensures var labels := Labels(domain[..i]);
            && word == labels[|labels| - 1] && |Encode(labels)| < |buffer|
            && NoZero(Encode(labels[..|labels| - 1])) && Holds(buffer, Encode(labels[..|labels| - 1]))
    ensures i < |domain| && domain[i] != DOT ==> |word| < 255
    ensures domain[..|domain|] == domain
  {
    hide Labels, Encode, Holds;
    Prefixes(domain, i);
    assert forall b <- domain[..i] :: b in domain;
    EncodedNoZero(domain[..i]);
    if i < |domain| {
      Prefixes(domain, i + 1);
      ReadOn(domain[..i], domain[i]);
      assert domain[..i + 1] == domain[..i] + [domain[i]];
      var after := Labels(domain[..i + 1]);
      assert after[|after| - 1] in after;
    }
  }

  lemma AfterDot(buffer: seq<Byte>, domain: seq<Byte>, i: nat)
    requires i <= |domain| && Holds(buffer, Encode(Labels(domain[..i])))
    ensures i < |domain| && domain[i] == DOT ==> Reading(buffer, domain[..i + 1], [])
  {
    hide Labels, Encode, Holds;
    if i < |domain| && domain[i] == DOT {
      ReadOn(domain[..i], domain[i]);
      assert domain[..i + 1] == domain[..i] + [domain[i]];
    }
  }

  lemma AfterLetter(buffer: seq<Byte>, domain: seq<Byte>, i: nat, word: seq<Byte>)
    requires i < |domain| && domain[i] != DOT && Reading(buffer, domain[..i], word)
    ensures Reading(buffer, domain[..i + 1], word + [domain[i]])
  {
    hide Labels, Encode, Holds;
    ReadOn(domain[..i], domain[i]);
    assert domain[..i + 1] == domain[..i] + [domain[i]];
  }

  lemma CString(buffer: seq<Byte>, domain: seq<Byte>)
    requires NoZero(domain) && LabelsFit(domain) && Holds(buffer, Encode(Labels(domain)))
    ensures UpToZero(buffer) == Encode(Labels(domain))
  {
    hide Labels, Encode, LabelsFit;
    EncodedNoZero(domain);
    UpToZeroIs(Encode(Labels(domain)), Zeros(|buffer| - |Encode(Labels(domain))|));
  }

  /** `build_dns_question`. */
  method BuildDnsQuestion(question: Question, domain: seq<Byte>)
    requires question.domain.Length == 1000
    requires NoZero(domain) && LabelsFit(domain) && |Encode(Labels(domain))| < 1000
    modifies question, question.domain
    ensures question.flags == Net16(1) + Net16(1)
    ensures Holds(question.domain[..], Encode(Labels(domain)))
    ensures UpToZero(question.domain[..]) == Encode(Labels(domain))
  {
    hide Labels, Encode, EncodeOne, LabelsFit, Holds, Reading, UpToZero, NoZero, Net16;
    var text := question.domain;
    for i := 0 to text.Length
      invariant forall j :: 0 <= j < i ==> text[j] == 0
    {
      text[i] := 0;
    }
    question.flags := Net16(1) + Net16(1);
    var word := new Byte[256];
    var passed, wordLen: nat := 0, 0;
    var i := 0;
    AtStart(text[..], domain);
    while i <= |domain|
      invariant 0 <= i <= |domain| + 1 && question.flags == Net16(1) + Net16(1) && fresh(word)
      invariant i <= |domain| ==> passed + wordLen == i && wordLen < 0x100
                                  && Reading(text[..], domain[..i], word[..wordLen])
      invariant i > |domain| ==> Holds(text[..], Encode(Labels(domain)))
    {
      BeforeByte(text[..], domain, i, word[..wordLen]);
      if i == |domain| || domain[i] == DOT {
        ghost var labels := Labels(domain[..i]);
        EncodeLast(labels);
        AppendLabel(text, word, wordLen, Encode(labels[..|labels| - 1]));
        AfterDot(text[..], domain, i);
        assert word[..0] == [];
        passed := passed + (wordLen + 1);
        wordLen := 0;
      } else {
        ghost var before := word[..wordLen];
        wordLen := (wordLen + 1) % 0x100;
        word[i - passed] := domain[i];
        AfterLetter(text[..], domain, i, before);
        assert word[..wordLen] == before + [domain[i]];
      }
      i := i + 1;
    }
    CString(text[..], domain);
  }
}
