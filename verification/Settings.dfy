/** Reading and replacing the value of a parameter inside a text of `name = value` lines. */
module Settings {

  import opened Options

  predicate IsSpace(c: char) {
    c == ' ' || ('\t' <= c <= '\r')
  }

  // ---------- trimming ----------

  function LTrimmed(s: string): (r: string)
    ensures |r| <= |s| && r == s[|s| - |r|..]
    ensures forall i :: 0 <= i < |s| - |r| ==> IsSpace(s[i])
    ensures r == [] || !IsSpace(r[0])
  {
    if s == [] || !IsSpace(s[0]) then s else LTrimmed(s[1..])
  }

  function RTrimmed(s: string): (r: string)
    ensures |r| <= |s| && r == s[..|r|]
    ensures forall i :: |r| <= i < |s| ==> IsSpace(s[i])
    ensures r == [] || !IsSpace(r[|r| - 1])
  {
    if s == [] || !IsSpace(s[|s| - 1]) then s else RTrimmed(s[..|s| - 1])
  }

  function Trimmed(s: string): string {
    RTrimmed(LTrimmed(s))
  }

  method LTrim(s: string) returns (r: string)
    ensures r == LTrimmed(s)
  {
    r := s;
    while r != [] && IsSpace(r[0])
      invariant LTrimmed(r) == LTrimmed(s)
    {
      r := r[1..];
    }
  }

  method RTrim(s: string) returns (r: string)
    ensures r == RTrimmed(s)
  {
    r := s;
    while r != [] && IsSpace(r[|r| - 1])
      invariant RTrimmed(r) == RTrimmed(s)
    {
      r := r[..|r| - 1];
    }
  }

  method Trim(s: string) returns (r: string)
    ensures r == Trimmed(s)
  {
    r := LTrim(s);
    r := RTrim(r);
  }

  /** Trimming yields the part from the first to the last character that is no space, and
      so trimming again changes nothing. */
  lemma TrimmedShape(s: string) returns (i: nat, j: nat)
    ensures i <= j <= |s| && Trimmed(s) == s[i..j]
    ensures (forall k :: 0 <= k < i ==> IsSpace(s[k])) && (forall k :: j <= k < |s| ==> IsSpace(s[k]))
    ensures i < j ==> !IsSpace(s[i]) && !IsSpace(s[j - 1])
    ensures Trimmed(Trimmed(s)) == Trimmed(s)
  {
    i, j := Span(s, LTrimmed(s), RTrimmed(LTrimmed(s)));
    NothingToTrim(LTrimmed(s));
  }

  /** The span of `r` in `s`, if it is what is left of `s` after spaces in front and behind. */
  lemma Span(s: string, l: string, r: string) returns (i: nat, j: nat)
    requires |r| <= |l| <= |s| && l == s[|s| - |l|..] && r == l[..|r|]
    requires forall k :: 0 <= k < |s| - |l| ==> IsSpace(s[k])
    requires forall k :: |r| <= k < |l| ==> IsSpace(l[k])
    requires (l == [] || !IsSpace(l[0])) && (r == [] || !IsSpace(r[|r| - 1]))
    ensures i <= j <= |s| && r == s[i..j]
    ensures (forall k :: 0 <= k < i ==> IsSpace(s[k])) && (forall k :: j <= k < |s| ==> IsSpace(s[k]))
    ensures i < j ==> !IsSpace(s[i]) && !IsSpace(s[j - 1])
  {
    i := |s| - |l|;
    j := i + |r|;
    assert s[i..][..|r|] == s[i..j];
    forall k | j <= k < |s|
      ensures IsSpace(s[k])
    {
      assert s[k] == l[k - i];
    }
    if i < j {
      assert s[i] == l[0] && s[j - 1] == r[|r| - 1];
    }
  }

  /** What is trimmed on the left and then on the right is trimmed on both sides. */
  lemma NothingToTrim(l: string)
    requires l == [] || !IsSpace(l[0])
    ensures LTrimmed(RTrimmed(l)) == RTrimmed(l) && RTrimmed(RTrimmed(l)) == RTrimmed(l)
  {
    var r := RTrimmed(l);
    assert r != [] ==> r[0] == l[0];
  }

  // ---------- searching ----------

  predicate MatchAt(s: string, pattern: string, i: nat) {
    i + |pattern| <= |s| && forall j :: 0 <= j < |pattern| ==> s[i + j] == pattern[j]
  }

  /** `std::string::find` for a string */
  function Find(s: string, pattern: string, from: nat): (r: Option<nat>)
    ensures r.Some? ==> from <= r.value && MatchAt(s, pattern, r.value)
    ensures r.Some? ==> forall k :: from <= k < r.value ==> !MatchAt(s, pattern, k)
    ensures r.None? ==> forall k :: from <= k ==> !MatchAt(s, pattern, k)
    decreases |s| - from
  {
    if from + |pattern| > |s| then None
    else if MatchAt(s, pattern, from) then Some(from)
    else Find(s, pattern, from + 1)
  }

  /** `std::string::find` for a character */
  function FindChar(s: string, c: char, from: nat): (r: Option<nat>)
    ensures r.Some? ==> from <= r.value < |s| && s[r.value] == c
    ensures r.Some? ==> forall k :: from <= k < r.value ==> s[k] != c
    ensures r.None? ==> forall k :: from <= k < |s| ==> s[k] != c
    decreases |s| - from
  {
    if from >= |s| then None else if s[from] == c then Some(from) else FindChar(s, c, from + 1)
  }

  // ---------- get and set ----------

  /** Where the '=' is looked for: behind the parameter.  If the parameter is missing the
      position wraps round and the search starts at its length minus one. */
  function SearchStart(text: string, param: string): nat {
    match Find(text, param, 0)
    case Some(p) => p + |param|
    case None => if |param| == 0 then 0 else |param| - 1
  }

  function ValueStart(text: string, param: string): Option<nat> {
    match FindChar(text, '=', SearchStart(text, param))
    case Some(eq) => Some(eq + 1)
    case None => None
  }

  function ValueEnd(text: string, start: nat): (end: nat)
    requires start <= |text|
    ensures start <= end <= |text|
    ensures end < |text| ==> text[end] == '\n'
    ensures forall k :: start <= k < end ==> text[k] != '\n'
  {
    match FindChar(text, '\n', start)
    case Some(e) => e
    case None => |text|
  }

  function Get(text: string, param: string): Option<string> {
    match ValueStart(text, param)
    case None => None
    case Some(start) => Some(Trimmed(text[start..ValueEnd(text, start)]))
  }

  function Set(text: string, param: string, value: string): string {
    match ValueStart(text, param)
    case None => text
    case Some(start) =>
      var end := ValueEnd(text, start);
      if Trimmed(text[start..end]) == value then text else text[..start] + value + text[end..]
  }

  method GetParamValue(text: string, param: string) returns (value: string, span: Option<(nat, nat)>)
    ensures span.Some? <==> Get(text, param).Some?
    ensures value == if Get(text, param).Some? then Get(text, param).value else ""
    ensures span.Some? ==> ValueStart(text, param) == Some(span.value.0)
                           && span.value.1 == ValueEnd(text, span.value.0)
  {
    var start := ValueStart(text, param);
    if start.None? {
      return "", None;
    }
    var end := ValueEnd(text, start.value);
    value := Trim(text[start.value..end]);
    span := Some((start.value, end));
  }

  method SetParamValue(text: string, param: string, value: string) returns (text': string, changed: bool)
    ensures text' == Set(text, param, value)
    ensures changed <==> Get(text, param).Some? && Get(text, param).value != value
  {
    var old', span := GetParamValue(text, param);
    if span.None? || old' == value {
      return text, false;
    }
    text' := text[..span.value.0] + value + text[span.value.1..];
    changed := true;
  }

  // ---------- round trip ----------

  function FirstLine(value: string): string {
    value[..ValueEnd(value, 0)]
  }

  lemma {:induction false} FindSame(s: string, s': string, pattern: string, from: nat, p: nat)
    requires Find(s, pattern, from) == Some(p)
    requires p + |pattern| <= |s'| && forall k :: 0 <= k < p + |pattern| ==> s'[k] == s[k]
    ensures Find(s', pattern, from) == Some(p)
    decreases p - from
  {
    assert MatchAt(s', pattern, from) <==> MatchAt(s, pattern, from);
    if from < p {
      FindSame(s, s', pattern, from + 1, p);
    }
  }

  lemma {:induction false} FindCharSame(s: string, s': string, c: char, from: nat, p: nat)
    requires FindChar(s, c, from) == Some(p)
    requires p < |s'| && forall k :: 0 <= k <= p ==> s'[k] == s[k]
    ensures FindChar(s', c, from) == Some(p)
    decreases p - from
  {
    if from < p {
      FindCharSame(s, s', c, from + 1, p);
    }
  }

  /** Changes behind the '=' do not change where the value starts. */
  lemma StartKept(text: string, text': string, param: string, start: nat)
    requires Find(text, param, 0).Some? && ValueStart(text, param) == Some(start)
    requires start <= |text'| && forall k :: 0 <= k < start ==> text'[k] == text[k]
    ensures ValueStart(text', param) == Some(start)
  {
    var p := Find(text, param, 0).value;
    FindSame(text, text', param, 0, p);
    FindCharSame(text, text', '=', p + |param|, start - 1);
  }

  /** What is put into the text is read back up to its first line end. */
  lemma SpanReadBack(before: string, value: string, after: string)
    requires after == [] || after[0] == '\n'
    ensures var text := before + value + after;
            text[|before|..ValueEnd(text, |before|)] == FirstLine(value)
  {
    var text := before + value + after;
    var n := ValueEnd(value, 0);
    var e := ValueEnd(text, |before|);
    assert forall k :: 0 <= k < |value| ==> text[|before| + k] == value[k];
    assert after != [] ==> text[|before| + |value|] == '\n';
    assert e == |before| + n;
    assert text[|before|..e] == value[..n];
  }

  /** The value of a line is its own first line, trimmed. */
  lemma TrimmedLine(line: string)
    requires '\n' !in line
    ensures FirstLine(Trimmed(line)) == Trimmed(line) && Trimmed(Trimmed(line)) == Trimmed(line)
  {
    var i, j := TrimmedShape(line);
    assert '\n' !in Trimmed(line);
    OneLine(Trimmed(line));
  }

  lemma OneLine(value: string)
    requires '\n' !in value
    ensures FirstLine(value) == value
  {
    assert forall k :: 0 <= k < |value| ==> value[k] != '\n';
  }

  /** Parameter round trip: where the parameter occurs with a later '=', setting and then
      getting it returns the trimmed first line of the value, and the text around the
      replaced span is as before. */
  lemma RoundTrip(text: string, param: string, value: string)
    requires Find(text, param, 0).Some? && ValueStart(text, param).Some?
    ensures Get(Set(text, param, value), param) == Some(Trimmed(FirstLine(value)))
    ensures var start := ValueStart(text, param).value;
            var end, text' := ValueEnd(text, start), Set(text, param, value);
            text' == if Get(text, param) == Some(value) then text else text[..start] + value + text[end..]
  {
    var start := ValueStart(text, param).value;
    var end, text' := ValueEnd(text, start), Set(text, param, value);
    if Trimmed(text[start..end]) == value {
      TrimmedLine(text[start..end]);
    } else {
      ReplacedReadBack(text, param, value, start, end);
    }
  }

  lemma ReplacedReadBack(text: string, param: string, value: string, start: nat, end: nat)
    requires Find(text, param, 0).Some? && ValueStart(text, param) == Some(start) && end == ValueEnd(text, start)
    ensures Get(text[..start] + value + text[end..], param) == Some(Trimmed(FirstLine(value)))
  {
    StartKept(text, text[..start] + value + text[end..], param, start);
    SpanReadBack(text[..start], value, text[end..]);
    assert |text[..start]| == start;
  }

  /** For a value on one line the trimmed value itself comes back. */
  lemma RoundTripOneLine(text: string, param: string, value: string)
    requires Find(text, param, 0).Some? && ValueStart(text, param).Some? && '\n' !in value
    ensures Get(Set(text, param, value), param) == Some(Trimmed(value))
  {
    RoundTrip(text, param, value);
    OneLine(value);
  }

  // ---------- what is read and where ----------

  /** Exactly the six characters of `isspace` are spaces. */
  lemma SpaceCharacters(c: char)
    ensures IsSpace(c) <==> c in {' ', '\t', '\n', '\U{B}', '\U{C}', '\r'}
  {
  }

  ghost predicate OccursAt(text: string, param: string, p: nat) {
    p + |param| <= |text| && text[p..p + |param|] == param
  }

  /** `p` is the first place where `param` occurs. */
  ghost predicate FirstAt(text: string, param: string, p: nat) {
    OccursAt(text, param, p) && forall k: nat :: k < p ==> !OccursAt(text, param, k)
  }

  lemma OccursIsMatch(text: string, param: string, p: nat)
    ensures OccursAt(text, param, p) <==> MatchAt(text, param, p)
  {
    if OccursAt(text, param, p) {
      forall j | 0 <= j < |param|
        ensures text[p + j] == param[j]
      {
        assert text[p + j] == text[p..p + |param|][j];
      }
    }
    if MatchAt(text, param, p) {
      assert text[p..p + |param|] == param;
    }
  }

  /** The search finds the first occurrence, and nothing if there is none. */
  lemma FindsFirst(text: string, param: string)
    ensures forall p: nat :: Find(text, param, 0) == Some(p) <==> FirstAt(text, param, p)
    ensures Find(text, param, 0).None? <==> forall p: nat :: !OccursAt(text, param, p)
  {
    forall p: nat
      ensures OccursAt(text, param, p) <==> MatchAt(text, param, p)
    {
      OccursIsMatch(text, param, p);
    }
  }

  /** `eq` is the first '=' at or after `from`. */
  ghost predicate FirstEquals(text: string, from: nat, eq: nat) {
    from <= eq < |text| && text[eq] == '=' && forall k :: from <= k < eq ==> text[k] != '='
  }

  /** `end` is the end of the line that `start` is in. */
  ghost predicate LineEnd(text: string, start: nat, end: nat) {
    start <= end <= |text| && (end == |text| || text[end] == '\n') && forall k :: start <= k < end ==> text[k] != '\n'
  }

  /** What is read and replaced is the text from behind the '=' to the end of its line. */
  ghost predicate ReadsAndReplaces(text: string, param: string, value: string, eq: nat, end: nat)
    requires eq < end <= |text|
  {
    && Get(text, param) == Some(Trimmed(text[eq + 1..end]))
    && Set(text, param, value) ==
       if Trimmed(text[eq + 1..end]) == value then text else text[..eq + 1] + value + text[end..]
  }

  lemma SpanFrom(text: string, param: string, value: string, from: nat, eq: nat, end: nat)
    requires SearchStart(text, param) == from && FirstEquals(text, from, eq) && LineEnd(text, eq + 1, end)
    ensures ReadsAndReplaces(text, param, value, eq, end)
  {
    EqualsFound(text, from, eq);
    EndFound(text, eq + 1, end);
    ReadsSpan(text, param, value, eq, end);
  }

  lemma ReadsSpan(text: string, param: string, value: string, eq: nat, end: nat)
    requires FindChar(text, '=', SearchStart(text, param)) == Some(eq) && ValueEnd(text, eq + 1) == end
    ensures ReadsAndReplaces(text, param, value, eq, end)
  {
    assert ValueStart(text, param) == Some(eq + 1);
    ReadsLine(text, param, value, eq + 1, end);
  }

  lemma ReadsLine(text: string, param: string, value: string, start: nat, end: nat)
    requires ValueStart(text, param) == Some(start) && start <= end <= |text| && ValueEnd(text, start) == end
    ensures Get(text, param) == Some(Trimmed(text[start..end]))
    ensures Set(text, param, value) ==
            if Trimmed(text[start..end]) == value then text else text[..start] + value + text[end..]
  {
  }

  lemma EqualsFound(text: string, from: nat, eq: nat)
    requires FirstEquals(text, from, eq)
    ensures FindChar(text, '=', from) == Some(eq)
  {
  }

  lemma EndFound(text: string, start: nat, end: nat)
    requires LineEnd(text, start, end)
    ensures ValueEnd(text, start) == end
  {
    var e := ValueEnd(text, start);
    assert !(e < end) && !(end < e);
  }

  /** A parameter that first occurs at `p` has a value if and only if there is a '=' behind
      it; without one nothing is replaced. */
  lemma HasValue(text: string, param: string, value: string, p: nat)
    requires FirstAt(text, param, p)
    ensures Get(text, param).Some? <==> exists i :: p + |param| <= i < |text| && text[i] == '='
    ensures Get(text, param).None? ==> Set(text, param, value) == text
  {
    FindsFirst(text, param);
  }

  /** The value is the text from the first such '=' to the end of the line, trimmed, and that
      is what is replaced. */
  lemma ParamAt(text: string, param: string, value: string, p: nat, eq: nat, end: nat)
    requires FirstAt(text, param, p) && FirstEquals(text, p + |param|, eq) && LineEnd(text, eq + 1, end)
    ensures ReadsAndReplaces(text, param, value, eq, end)
  {
    FindsFirst(text, param);
    SpanFrom(text, param, value, p + |param|, eq, end);
  }

  /** A line "param gap = old": the value is the old one, trimmed, and setting a new one
      replaces exactly the old one. */
  lemma ParamLine(before: string, param: string, gap: string, old': string, tail: string, value: string)
    requires FirstAt(before + param + gap + "=" + old' + tail, param, |before|)
    requires '=' !in gap && '\n' !in old' && (tail == "" || tail[0] == '\n')
    ensures var text := before + param + gap + "=" + old' + tail;
            && Get(text, param) == Some(Trimmed(old'))
            && Set(text, param, value) ==
               if Trimmed(old') == value then text else before + param + gap + "=" + value + tail
  {
    var head := before + param + gap;
    var text := head + "=" + old' + tail;
    var eq, end := |head|, |head| + 1 + |old'|;
    assert forall k :: |before| + |param| <= k < eq ==> text[k] == gap[k - |before| - |param|];
    assert text[eq] == '=' && FirstEquals(text, |before| + |param|, eq);
    assert forall k :: eq + 1 <= k < end ==> text[k] == old'[k - eq - 1];
    assert text[end..] == tail && LineEnd(text, eq + 1, end);
    assert text[eq + 1..end] == old' && text[..eq + 1] == head + "=";
    ParamAt(text, param, value, |before|, eq, end);
  }

  /** A parameter that does not occur is not reported as missing: the value of whatever
      '=' comes at or after the length of its name minus one is taken for it. */
  lemma MissingParam(text: string, param: string)
    requires forall p: nat :: !OccursAt(text, param, p)
    ensures param != []
    ensures Get(text, param).Some? <==> exists i :: |param| - 1 <= i < |text| && text[i] == '='
  {
    FindsFirst(text, param);
    assert !OccursAt(text, param, 0);
  }

  lemma MissingParamValue(text: string, param: string, value: string, eq: nat, end: nat)
    requires forall p: nat :: !OccursAt(text, param, p)
    requires param != [] && FirstEquals(text, |param| - 1, eq) && LineEnd(text, eq + 1, end)
    ensures ReadsAndReplaces(text, param, value, eq, end)
  {
    FindsFirst(text, param);
    SpanFrom(text, param, value, |param| - 1, eq, end);
  }

  /** The text "=" has a value for the parameter "b". */
  lemma MissingParamExample(text: string, param: string)
    requires text == ['='] && param == ['b']
    ensures (forall p: nat :: !OccursAt(text, param, p)) && Get(text, param).Some?
  {
    forall p: nat
      ensures !OccursAt(text, param, p)
    {
      if p == 0 {
        assert text[0..1][0] != param[0];
      }
    }
    assert text[0] == '=';
    MissingParam(text, param);
  }
}
