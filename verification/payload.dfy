/** The textual datagram rule of receiveData: a payload is
    "<flow name><space><value text>", at most 512 bytes long.

    A Go string is a sequence of bytes; each `char` here stands for one
    byte of the payload. */
module Payload {

  /** Longest payload accepted (maxPayload). */
  const MaxPayload := 512

  datatype PayloadError = TooLong | NoSeparator

  /** Outcome of splitting a payload; the value text is parsed later. */
  datatype Split = Accepted(name: string, valueText: string) | Rejected(reason: PayloadError)

  /** Position of the first space, or |s| when there is none. */
  function FirstSpace(s: string): (k: nat)
    ensures k <= |s|
    ensures forall j :: 0 <= j < k ==> s[j] != ' '
    ensures k < |s| ==> s[k] == ' '
  {
    if s == [] then 0
    else if s[0] == ' ' then 0
    else 1 + FirstSpace(s[1..])
  }

  /** The size check and strings.SplitN(payload, " ", 2): payloads over
      MaxPayload bytes and payloads without a space are rejected; anything
      else is cut at its first space into name and value text (the value
      text keeps any later spaces; the name may be empty). */
  function SplitPayload(payload: string): (r: Split)
    ensures r.Rejected? <==> |payload| > MaxPayload || ' ' !in payload
    ensures |payload| > MaxPayload ==> r == Rejected(TooLong)
    ensures |payload| <= MaxPayload && ' ' !in payload ==> r == Rejected(NoSeparator)
    ensures r.Accepted? ==> payload == r.name + " " + r.valueText && ' ' !in r.name
  {
    if |payload| > MaxPayload then Rejected(TooLong)
    else
      var k := FirstSpace(payload);
      if k == |payload| then Rejected(NoSeparator)
      else
        assert payload == payload[..k] + " " + payload[k + 1..];
        Accepted(payload[..k], payload[k + 1..])
  }

  /** Round trip: a space-free name, a space and any value text, within
      the size limit, split back into exactly that name and text. */
  lemma SplitJoined(name: string, valueText: string)
    requires ' ' !in name
    requires |name| + 1 + |valueText| <= MaxPayload
    ensures SplitPayload(name + " " + valueText) == Accepted(name, valueText)
  {
    var payload := name + " " + valueText;
    assert payload[|name|] == ' ';
    var k := FirstSpace(payload);
    assert k == |name|;
    assert payload[..k] == name;
    assert payload[k + 1..] == valueText;
  }
}
