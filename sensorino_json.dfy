/** The small JSON scanners of the node-side serial bridge
    (Sensorino_JSON.cpp): splitting a JSON array into element offsets,
    cutting the balanced object that follows "data", and matching and
    writing message and control type names.  C strings are modelled as the
    characters before their terminating NUL; a pointer into a string is an
    offset. */
module SensorinoJson {
  import opened Common

  const NUL: char := '\0'

  /** toupper over ASCII. */
  function ToUpper(c: char): (u: char)
    ensures 'a' <= c <= 'z' ==> 'A' <= u <= 'Z'
    ensures !('a' <= c <= 'z') ==> u == c
  {
    if 'a' <= c <= 'z' then (c as int - 32) as char else c
  }

  /** The comparison chains `toupper(s[0]) == p[0] && ...`: they read s up
      to its NUL at most, so they hold exactly when s is at least as long
      as p and starts with p ignoring case (p is upper-case, without NUL). */
  predicate UpperPrefix(s: string, p: string)
  {
    |p| <= |s| && forall k :: 0 <= k < |p| ==> ToUpper(s[k]) == p[k]
  }

  /** A prefix match fixes the first two letters of s (up to case). */
  lemma LeadingLetters(s: string)
    ensures forall p :: |p| > 0 && UpperPrefix(s, p) ==> ToUpper(s[0]) == p[0]
    ensures forall p :: |p| > 1 && UpperPrefix(s, p) ==> ToUpper(s[1]) == p[1]
  {
  }

  /** Every letter of s upper-cased. */
  function UpperAll(s: string): (u: string)
    ensures |u| == |s| && forall k :: 0 <= k < |s| ==> u[k] == ToUpper(s[k])
  {
    if s == [] then [] else [ToUpper(s[0])] + UpperAll(s[1..])
  }

  /** A prefix match ignores case and what follows the prefix. */
  lemma UpperPrefixInvariance(s: string, rest: string, p: string)
    ensures UpperPrefix(UpperAll(s), p) <==> UpperPrefix(s, p)
    ensures UpperPrefix(s, p) ==> UpperPrefix(s + rest, p)
  {
    forall k | 0 <= k < |s|
      ensures ToUpper(UpperAll(s)[k]) == ToUpper(s[k])
    {
    }
    assert forall k :: 0 <= k < |s| ==> (s + rest)[k] == s[k];
  }

  // ---------------------------------------------------------------------
  // Message and control type names

  /** The MessageType enumeration of Sensorino_Protocol.h. */
  datatype MessageType = Err | Ctrl | Publish | Set | Request

  /** stringToMessageType: the type whose name the string starts with,
      ignoring case; None when there is none, where the C function falls
      off its end without returning a value. */
  function StringToMessageType(s: string): (r: Option<MessageType>)
    ensures r == Some(Ctrl) <==> UpperPrefix(s, "CONTROL")
    ensures r == Some(Err) <==> UpperPrefix(s, "ERROR")
    ensures r == Some(Publish) <==> UpperPrefix(s, "PUBLISH")
    ensures r == Some(Set) <==> UpperPrefix(s, "SET")
    ensures r == Some(Request) <==> UpperPrefix(s, "REQUEST")
  {
    LeadingLetters(s);
    if UpperPrefix(s, "CONTROL") then Some(Ctrl)
    else if UpperPrefix(s, "ERROR") then Some(Err)
    else if UpperPrefix(s, "PUBLISH") then Some(Publish)
    else if UpperPrefix(s, "SET") then Some(Set)
    else if UpperPrefix(s, "REQUEST") then Some(Request)
    else None
  }

  /** The lower-case name messageTypeToString writes for a type. */
  function MessageTypeName(t: MessageType): string
  {
    match t
    case Publish => "publish"
    case Request => "request"
    case Set => "set"
    case Ctrl => "control"
    case Err => "error"
  }

  /** messageTypeToString: the name in double quotes, as copied into the
      buffer. */
  function MessageTypeToString(t: MessageType): (r: string)
    ensures r == "\"" + MessageTypeName(t) + "\""
  {
    match t
    case Publish => "\"publish\""
    case Request => "\"request\""
    case Set => "\"set\""
    case Ctrl => "\"control\""
    case Err => "\"error\""
  }

  /** The name written between the quotes reads back as the same type. */
  lemma MessageTypeRoundTrip(t: MessageType)
    ensures StringToMessageType(MessageTypeName(t)) == Some(t)
  {
    var name := MessageTypeName(t);
    match t
    case Publish => assert ToUpper(name[0]) == 'P' && UpperPrefix(name, "PUBLISH");
    case Request => assert ToUpper(name[0]) == 'R' && UpperPrefix(name, "REQUEST");
    case Set => assert ToUpper(name[0]) == 'S' && UpperPrefix(name, "SET");
    case Ctrl => assert ToUpper(name[0]) == 'C' && UpperPrefix(name, "CONTROL");
    case Err => assert ToUpper(name[0]) == 'E' && UpperPrefix(name, "ERROR");
  }

  /** The match ignores case and whatever follows the name. */
  lemma MessageTypeIgnoresCaseAndTail(s: string, rest: string)
    ensures StringToMessageType(UpperAll(s)) == StringToMessageType(s)
    ensures StringToMessageType(s).Some? ==> StringToMessageType(s + rest) == StringToMessageType(s)
  {
    UpperPrefixInvariance(s, rest, "CONTROL");
    UpperPrefixInvariance(s, rest, "ERROR");
    UpperPrefixInvariance(s, rest, "PUBLISH");
    UpperPrefixInvariance(s, rest, "SET");
    UpperPrefixInvariance(s, rest, "REQUEST");
  }

  /** The control types, PONG included (the enumeration of
      Sensorino_Protocol.h lists only PING, ADVERT and TIMESYNCH, while
      this file names PONG too). */
  datatype ControlType = Ping | Pong | Advert | TimeSynch

  /** stringToControlType: the control type whose name the string starts
      with, ignoring case; None where the C function returns no value. */
  function StringToControlType(s: string): (r: Option<ControlType>)
    ensures r == Some(Ping) <==> UpperPrefix(s, "PING")
    ensures r == Some(Pong) <==> UpperPrefix(s, "PONG")
    ensures r == Some(Advert) <==> UpperPrefix(s, "ADVERT")
    ensures r == Some(TimeSynch) <==> UpperPrefix(s, "TIMESYNCH")
  {
    LeadingLetters(s);
    if UpperPrefix(s, "PING") then Some(Ping)
    else if UpperPrefix(s, "PONG") then Some(Pong)
    else if UpperPrefix(s, "ADVERT") then Some(Advert)
    else if UpperPrefix(s, "TIMESYNCH") then Some(TimeSynch)
    else None
  }

  /** The upper-case name controlTypeToString writes for a type. */
  function ControlTypeName(c: ControlType): string
  {
    match c
    case Ping => "PING"
    case Pong => "PONG"
    case Advert => "ADVERT"
    case TimeSynch => "TIMESYNCH"
  }

  /** controlTypeToString: the name in double quotes. */
  function ControlTypeToString(c: ControlType): (r: string)
    ensures r == "\"" + ControlTypeName(c) + "\""
  {
    match c
    case Ping => "\"PING\""
    case Pong => "\"PONG\""
    case Advert => "\"ADVERT\""
    case TimeSynch => "\"TIMESYNCH\""
  }

  lemma ControlTypeRoundTrip(c: ControlType)
    ensures StringToControlType(ControlTypeName(c)) == Some(c)
  {
    var name := ControlTypeName(c);
    match c
    case Ping => assert ToUpper(name[0]) == 'P' && ToUpper(name[1]) == 'I' && UpperPrefix(name, "PING");
    case Pong => assert ToUpper(name[0]) == 'P' && ToUpper(name[1]) == 'O' && UpperPrefix(name, "PONG");
    case Advert => assert ToUpper(name[0]) == 'A' && UpperPrefix(name, "ADVERT");
    case TimeSynch => assert ToUpper(name[0]) == 'T' && UpperPrefix(name, "TIMESYNCH");
  }

  /** JSONtoBoolean, given what the name search found (None for NULL):
      true exactly when the value starts with "true" in any case. */
  function JsonToBoolean(found: Option<string>): (r: bool)
    ensures r <==> found.Some? && |found.value| >= 4 && UpperAll(found.value[..4]) == "TRUE"
  {
    found.Some? && UpperPrefix(found.value, "TRUE")
  }

  // ---------------------------------------------------------------------
  // JSONtoStringArray

  /** The bracket level JSONtoStringArray has reached before line[k]. A
      ']' at level 0 ends the scan, so the level is never negative. */
  function Depth(line: string, k: nat): nat
    requires k <= |line|
  {
    if k == 0 then 0
    else
      var d := Depth(line, k - 1);
      if line[k - 1] == '[' then d + 1
      else if line[k - 1] == ']' && d > 0 then d - 1
      else d
  }

  /** The scan stops at a ']' met at level 0. */
  predicate StopsAt(line: string, k: nat)
    requires k < |line|
  {
    line[k] == ']' && Depth(line, k) == 0
  }

  /** Where the scan ends: the first stop from k on, or the end of the
      line. */
  function ScanEnd(line: string, k: nat): (e: nat)
    requires k <= |line|
    ensures k <= e <= |line|
    ensures forall j :: k <= j < e ==> !StopsAt(line, j)
    ensures e < |line| ==> StopsAt(line, e)
    decreases |line| - k
  {
    if k == |line| || StopsAt(line, k) then k else ScanEnd(line, k + 1)
  }

  /** line[k] starts an element: the top-level '[' or a ',' at level 1. */
  predicate Opens(line: string, k: nat)
    requires k < |line|
  {
    (line[k] == '[' && Depth(line, k) == 0) || (line[k] == ',' && Depth(line, k) == 1)
  }

  /** The offsets recorded while scanning line[..n]: one past each
      character that starts an element. */
  function Starts(line: string, n: nat): seq<nat>
    requires n <= |line|
  {
    if n == 0 then [] else Starts(line, n - 1) + (if Opens(line, n - 1) then [n] else [])
  }

  /** The recorded offsets are, in increasing order, exactly one past the
      characters that start an element. */
  lemma {:induction false} StartsMeaning(line: string, n: nat)
    requires n <= |line|
    ensures forall p :: p in Starts(line, n) <==> 1 <= p <= n && Opens(line, p - 1)
    ensures forall i, j :: 0 <= i < j < |Starts(line, n)| ==> Starts(line, n)[i] < Starts(line, n)[j]
  {
    if n > 0 {
      StartsMeaning(line, n - 1);
      var prev := Starts(line, n - 1);
      assert forall p :: p in prev ==> p <= n - 1;
      assert forall i :: 0 <= i < |prev| ==> prev[i] in prev;
    }
  }

  lemma {:induction false} StartsGrow(line: string, m: nat, n: nat)
    requires m <= n <= |line|
    ensures |Starts(line, m)| <= |Starts(line, n)|
    decreases n - m
  {
    if m < n {
      StartsGrow(line, m, n - 1);
    }
  }

  /** JSONtoStringArray: the offsets of the elements of the array line
      starts with, written to arr; the count is 0 for a NULL line.  The C
      code writes one slot per element with no bound, so the caller's
      array must have room for all of them. */
  method JsonToStringArray(line: Option<string>, arr: array<nat>) returns (len: nat)
    requires line.Some? ==> |Starts(line.value, ScanEnd(line.value, 0))| <= arr.Length
    modifies arr
    ensures line.None? ==> len == 0 && arr[..] == old(arr[..])
    ensures len <= arr.Length
    ensures line.Some? ==> arr[..len] == Starts(line.value, ScanEnd(line.value, 0))
    ensures arr[len..] == old(arr[len..])
  {
    if line.None? {
      return 0;
    }
    var s := line.value;
    ghost var end := ScanEnd(s, 0);
    var level := 0;
    var arridx := 0;
    var i := 0;
    while i < |s|
      invariant i <= end && level == Depth(s, i)
      invariant arridx == |Starts(s, i)| <= arr.Length
      invariant arr[..arridx] == Starts(s, i)
      invariant forall k :: arridx <= k < arr.Length ==> arr[k] == old(arr[k])
      decreases |s| - i
    {
      if s[i] == ']' && level == 0 {
        assert StopsAt(s, i);
        break;
      }
      assert i < end;
      StartsGrow(s, i + 1, end);
      if s[i] == '[' {
        if level == 0 {
          arr[arridx] := i + 1;
          arridx := arridx + 1;
        }
        level := level + 1;
      }
      if s[i] == ',' && level == 1 {
        arr[arridx] := i + 1;
        arridx := arridx + 1;
      }
      if s[i] == ']' {
        level := level - 1;
      }
      i := i + 1;
    }
    assert i == end;
    return arridx;
  }

  // ---------------------------------------------------------------------
  // parseData

  /** '{' minus '}' in s. */
  function Balance(s: string): int
  {
    if s == [] then 0
    else
      var last := s[|s| - 1];
      Balance(s[..|s| - 1]) + (if last == '{' then 1 else if last == '}' then -1 else 0)
  }

  lemma BalanceStep(s: string, m: nat)
    requires m < |s|
    ensures Balance(s[..m + 1]) == Balance(s[..m]) + (if s[m] == '{' then 1 else if s[m] == '}' then -1 else 0)
  {
    assert s[..m + 1][..m] == s[..m];
  }

  /** The first m from k on at which s[..m] is balanced, or 0. */
  function FirstBalanced(s: string, k: nat): (m: nat)
    requires 1 <= k
    ensures m == 0 || (k <= m <= |s| && Balance(s[..m]) == 0)
    ensures forall j :: k <= j <= |s| && (m == 0 || j < m) ==> Balance(s[..j]) != 0
    decreases |s| + 1 - k
  {
    if k > |s| then 0
    else if Balance(s[..k]) == 0 then k
    else FirstBalanced(s, k + 1)
  }

  /** What parseData returns for the text after "data": the length of
      the balanced object it starts with, or 0. */
  function ObjectLength(data: string): nat
  {
    if |data| > 0 && data[0] == '{' then FirstBalanced(data, 2) else 0
  }

  lemma {:induction false} OpenPrefixesPositive(data: string, n: nat)
    requires |data| > 0 && data[0] == '{' && 1 <= n <= |data|
    requires forall j :: 2 <= j <= n ==> Balance(data[..j]) != 0
    ensures forall j :: 1 <= j <= n ==> Balance(data[..j]) > 0
  {
    if n == 1 {
      assert Balance(data[..1]) == 1 by { BalanceStep(data, 0); }
    } else {
      OpenPrefixesPositive(data, n - 1);
      BalanceStep(data, n - 1);
    }
  }

  /** A non-zero length is that of the shortest prefix that opens with '{'
      and closes every brace, so it ends with '}'; 0 means the text does
      not start with '{' or never closes it. */
  lemma ObjectLengthMeans(data: string)
    ensures var n := ObjectLength(data);
      && (n > 0 ==>
            && 2 <= n <= |data| && data[0] == '{' && data[n - 1] == '}' && Balance(data[..n]) == 0
            && forall j :: 1 <= j < n ==> Balance(data[..j]) > 0)
      && (n == 0 ==>
            |data| == 0 || data[0] != '{' || forall j :: 1 <= j <= |data| ==> Balance(data[..j]) > 0)
  {
    var n := ObjectLength(data);
    if |data| > 0 && data[0] == '{' {
      if n > 0 {
        OpenPrefixesPositive(data, n - 1);
        BalanceStep(data, n - 1);
      } else {
        OpenPrefixesPositive(data, |data|);
      }
    }
  }

  /** parseData, given the text after the "data" name: copy the balanced
      object it starts with into buff, braces included, NUL-terminate it
      and return its length; return 0 and leave buff alone otherwise. */
  method ParseData(data: string, buff: array<char>) returns (n: nat)
    requires ObjectLength(data) < buff.Length
    modifies buff
    ensures n == ObjectLength(data)
    ensures n > 0 ==> buff[..n] == data[..n] && buff[n] == NUL && buff[n + 1..] == old(buff[n + 1..])
    ensures n == 0 ==> buff[..] == old(buff[..])
  {
    if |data| > 0 && data[0] == '{' {
      var lvl := 1;
      var ind := 1;
      assert Balance(data[..1]) == 1 by { BalanceStep(data, 0); }
      while ind < |data|
        invariant 1 <= ind <= |data|
        invariant lvl == Balance(data[..ind])
        invariant ObjectLength(data) == FirstBalanced(data, ind + 1)
        invariant buff[..] == old(buff[..])
        decreases |data| - ind
      {
        BalanceStep(data, ind);
        if data[ind] == '{' {
          lvl := lvl + 1;
        }
        if data[ind] == '}' {
          lvl := lvl - 1;
        }
        if lvl == 0 {
          for i := 0 to ind + 1
            invariant buff[..i] == data[..i]
            invariant buff[ind + 1..] == old(buff[ind + 1..])
          {
            buff[i] := data[i];
          }
          buff[ind + 1] := NUL;
          return ind + 1;
        }
        ind := ind + 1;
      }
    }
    return 0;
  }
}
