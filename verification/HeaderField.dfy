/**
  One header field: its name up to the colon, and its value without the blanks around it.
 */
module HeaderField {
  import opened Wrappers
  import opened HttpText
  import opened Sequences
  import opened Splitting
  import opened QueryString

  function Lower(c: char): char {
    if 'A' <= c <= 'Z' then c + ('a' - 'A') else c
  }

  predicate StartsIgnoringCase(a: string, b: string) {
    |a| >= |b| && forall i :: 0 <= i < |b| ==> Lower(a[i]) == Lower(b[i])
  }

  method StartWithCaseIgnore(a: string, b: string) returns (r: bool)
    ensures r == StartsIgnoringCase(a, b)
  {
    if |a| < |b| {
      return false;
    }
    for i := 0 to |b|
      invariant forall k :: 0 <= k < i ==> Lower(a[k]) == Lower(b[k])
    {
      if Lower(a[i]) != Lower(b[i]) {
        return false;
      }
    }
    return true;
  }

  /** A field name that is not empty, a colon, and a value that is not blank. */
  predicate IsField(line: string) {
    var s := TrimEnd(line);
    var k := IndexOf(s, ':');
    0 < k < |s| && TrimStart(s[k + 1..]) != []
  }

  predicate SameIgnoringCase(a: string, b: string) {
    |a| == |b| && StartsIgnoringCase(a, b)
  }

  /** The name and the value of a field; the value is percent-decoded except in a Location. */
  function FieldOf(line: string): (r: Option<Param>)
    ensures r.Some? <==> IsField(line)
  {
    if !IsField(line) then None
    else
      var s := TrimEnd(line);
      var k := IndexOf(s, ':');
      var value := TrimStart(s[k + 1..]);
      Some(Param(s[..k], if SameIgnoringCase(s[..k], "Location") then value else Decode(value, false)))
  }

  /** A value that reading leaves as it is. */
  predicate PlainValue(key: string, value: string) {
    value != [] && Trimmed(value) && (SameIgnoringCase(key, "Location") || '%' !in value)
  }

  lemma WrittenSplits(key: string, value: string)
    requires Piece(key, ':') && value != [] && Trimmed(value)
    ensures var line := key + ": " + value;
      TrimEnd(line) == line && IndexOf(line, ':') == |key| && line[..|key|] == key
        && TrimStart(line[|key| + 1..]) == value
  {
    var line := key + ": " + value;
    assert line[|line| - 1] == value[|value| - 1];
    IndexIs(line, ':', |key|);
    var rest := line[|key| + 1..];
    assert rest == " " + value;
    TrimStartIs(rest, 1);
    assert rest[1..] == value;
  }

  /** A written field is read back. */
  lemma FieldReadsBack(key: string, value: string)
    requires Piece(key, ':') && PlainValue(key, value)
    ensures FieldOf(key + ": " + value) == Some(Param(key, value))
  {
    WrittenSplits(key, value);
    if !SameIgnoringCase(key, "Location") {
      PercentFreeIsPlain(value);
    }
  }

  /** Going down from the end of the line over its blanks. */
  method TrimmedEnd(line: string) returns (end: nat)
    ensures end <= |line| && TrimEnd(line) == line[..end]
  {
    end := |line|;
    while end > 0 && Space(line[end - 1])
      invariant end <= |line| && forall k :: end <= k < |line| ==> Space(line[k])
    {
      end := end - 1;
    }
    TrimEndIs(line, end);
  }

  method FindColon(line: string, end: nat) returns (p: nat)
    requires end <= |line|
    ensures p == IndexOf(line[..end], ':')
  {
    p := 0;
    while p < end && line[p] != ':'
      invariant 0 <= p <= end && forall k :: 0 <= k < p ==> line[k] != ':'
    {
      p := p + 1;
    }
    IndexIs(line[..end], ':', p);
  }

  /** Going up over the blanks before the end. */
  method SkipBlanks(line: string, start: nat, end: nat) returns (p: nat)
    requires start <= end <= |line|
    ensures start <= p <= end && TrimStart(line[start..end]) == line[p..end]
  {
    p := start;
    while p < end && Space(line[p])
      invariant start <= p <= end && forall k :: start <= k < p ==> Space(line[k])
    {
      p := p + 1;
    }
    TrimStartIs(line[start..end], p - start);
    assert line[start..end][p - start..] == line[p..end];
  }

  /** What the positions of the colon and of the value say. */
  lemma FieldAt(line: string, end: nat, keyEnd: nat, p: nat)
    requires end <= |line| && TrimEnd(line) == line[..end] && keyEnd == IndexOf(line[..end], ':') < end
    requires keyEnd < p <= end && TrimStart(line[keyEnd + 1..end]) == line[p..end]
    ensures IsField(line) <==> keyEnd > 0 && p < end
    ensures var key, value := line[..keyEnd], line[p..end];
            IsField(line) ==>
              FieldOf(line) == Some(Param(key, if SameIgnoringCase(key, "Location") then value
                                          else Decode(value, false)))
  {
    var s := line[..end];
    assert s[keyEnd + 1..] == line[keyEnd + 1..end] && s[..keyEnd] == line[..keyEnd];
    assert |line[p..end]| == end - p;
  }

  method ParseHeader(line: string) returns (field: Option<Param>)
    ensures field == FieldOf(line)
  {
    var end := TrimmedEnd(line);
    var keyEnd := FindColon(line, end);
    if keyEnd == end {
      return None;
    }
    var p := SkipBlanks(line, keyEnd + 1, end);
    FieldAt(line, end, keyEnd, p);
    if p == end || keyEnd == 0 {
      return None;
    }
    var key, value := line[..keyEnd], line[p..end];
    var location := StartWithCaseIgnore(key, "Location");
    if !location || |key| != |"Location"| {
      value := DecodeUrl(value, false);
    }
    return Some(Param(key, value));
  }
}
