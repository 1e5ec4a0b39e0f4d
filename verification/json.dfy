/**
  Values as `json.loads` produces them, and the few Python built-ins the
  cookie code applies to them: `dict.get`, truthiness, `isinstance(v, (int,
  float))`, `int(v)` and `str(v)`. Floats are not part of this model.
 */
module Json {
  import opened Wrappers
  import opened Text

  /**
    A parsed JSON value. `Obj` lists the items of the dict `json.loads`
    returns, in insertion order; such items have `DistinctKeys`.
   */
  datatype Value =
    | Null
    | Bool(b: bool)
    | Int(i: int)
    | Str(s: string)
    | Arr(items: seq<Value>)
    | Obj(members: seq<(string, Value)>)

  /** A cookie record: a JSON object looked up by key. */
  type Dict = map<string, Value>

  /** The items of a dict name each key once. */
  predicate DistinctKeys(members: seq<(string, Value)>) {
    forall i, j :: 0 <= i < j < |members| ==> members[i].0 != members[j].0
  }

  /** The dict of an object's items, looked up by key (a later item wins). */
  function DictOf(members: seq<(string, Value)>): Dict
  {
    if members == [] then map[]
    else DictOf(members[..|members| - 1])[members[|members| - 1].0 := members[|members| - 1].1]
  }

  /** On items with distinct keys, the dict holds each item under its key and nothing else. */
  lemma {:induction false} DictOfDistinct(members: seq<(string, Value)>)
    requires DistinctKeys(members)
    ensures forall k :: k in DictOf(members) <==> exists i :: 0 <= i < |members| && members[i].0 == k
    ensures forall i :: 0 <= i < |members| ==> DictOf(members)[members[i].0] == members[i].1
  {
    if members != [] {
      var init := members[..|members| - 1];
      var last := members[|members| - 1];
      assert DistinctKeys(init);
      DictOfDistinct(init);
      forall i | 0 <= i < |members|
        ensures DictOf(members)[members[i].0] == members[i].1
      {
        if i < |init| {
          assert init[i] == members[i];
          assert members[i].0 != last.0;
        }
      }
      forall k
        ensures k in DictOf(members) <==> exists i :: 0 <= i < |members| && members[i].0 == k
      {
        if k in DictOf(init) {
          var i :| 0 <= i < |init| && init[i].0 == k;
          assert members[i].0 == k;
        }
        if k != last.0 && (exists i :: 0 <= i < |members| && members[i].0 == k) {
          var i :| 0 <= i < |members| && members[i].0 == k;
          assert init[i].0 == k;
        }
      }
    }
  }

  /** `d.get(k)`: `None` when the key is missing. */
  function Get(d: Dict, k: string): Value
  {
    if k in d then d[k] else Null
  }

  /** `d.get(k, default)` */
  function GetOr(d: Dict, k: string, default: Value): Value
  {
    if k in d then d[k] else default
  }

  /** Python truthiness. */
  predicate Truthy(v: Value)
  {
    match v
    case Null => false
    case Bool(b) => b
    case Int(i) => i != 0
    case Str(s) => s != ""
    case Arr(items) => items != []
    case Obj(members) => members != []
  }

  /** `isinstance(v, (int, float))`; a bool is an int in Python. */
  predicate IsNumber(v: Value)
  {
    v.Int? || v.Bool?
  }

  predicate IsDigit(c: char) { '0' <= c <= '9' }

  predicate IsDigits(s: string) {
    s != "" && forall i :: 0 <= i < |s| ==> IsDigit(s[i])
  }

  function DigitsValue(s: string): nat
    requires forall i :: 0 <= i < |s| ==> IsDigit(s[i])
  {
    if s == "" then 0
    else
      var last := s[|s| - 1];
      assert IsDigit(last);
      DigitsValue(s[..|s| - 1]) * 10 + (last as int - '0' as int)
  }

  /** The decimal digits of `n`, without leading zeros. */
  function NatToDecimal(n: nat): (r: string)
    ensures IsDigits(r)
    ensures DigitsValue(r) == n
    ensures |r| == 1 || r[0] != '0'
    ensures r[0] == '0' <==> n == 0
  {
    var d := ['0' + (n % 10) as char];
    if n < 10 then d
    else
      var r := NatToDecimal(n / 10) + d;
      assert r[..|r| - 1] == NatToDecimal(n / 10);
      r
  }

  /** `str(i)` for an int. */
  function IntToDecimal(i: int): string
  {
    if i < 0 then "-" + NatToDecimal(-i) else NatToDecimal(i)
  }

  /** `int(s)` for a string: optional surrounding whitespace, an optional sign, ASCII digits. */
  function ParseInt(s: string): Option<int>
  {
    var t := Strip(s);
    if t != "" && (t[0] == '-' || t[0] == '+') then
      if IsDigits(t[1..]) then
        var magnitude: int := DigitsValue(t[1..]);
        Some(if t[0] == '-' then -magnitude else magnitude)
      else None
    else if IsDigits(t) then Some(DigitsValue(t))
    else None
  }

  /** `int(v)` for a number, which is an int or a bool here. */
  function NumberToInt(v: Value): int
    requires IsNumber(v)
  {
    if v.Bool? then (if v.b then 1 else 0) else v.i
  }

  /** `int(v)`: None where Python raises (None, lists, dicts, text that is not a number). */
  function ToInt(v: Value): Option<int>
  {
    if IsNumber(v) then Some(NumberToInt(v))
    else if v.Str? then ParseInt(v.s)
    else None
  }

  /** `repr(v)` for the values a cookie may hold (string quoting without escapes). */
  function Repr(v: Value): string
    decreases v
  {
    match v
    case Null => "None"
    case Bool(b) => if b then "True" else "False"
    case Int(i) => IntToDecimal(i)
    case Str(s) => "'" + s + "'"
    case Arr(items) => "[" + ReprItems(items) + "]"
    case Obj(members) => "{" + ReprMembers(members) + "}"
  }

  function ReprItems(items: seq<Value>): string
    decreases items
  {
    if items == [] then ""
    else if |items| == 1 then Repr(items[0])
    else Repr(items[0]) + ", " + ReprItems(items[1..])
  }

  function ReprMember(member: (string, Value)): string
    decreases member
  {
    "'" + member.0 + "': " + Repr(member.1)
  }

  function ReprMembers(members: seq<(string, Value)>): string
    decreases members
  {
    if members == [] then ""
    else
      var item := ReprMember(members[0]);
      if |members| == 1 then item else item + ", " + ReprMembers(members[1..])
  }

  /** `str(v)`: a string is itself, anything else its `repr`. */
  function PyStr(v: Value): string
  {
    if v.Str? then v.s else Repr(v)
  }

  /** `int(str(i)) == i`: the text `str` gives for an int parses back to it. */
  lemma ParseIntOfDecimal(i: int)
    ensures ParseInt(PyStr(Int(i))) == Some(i)
  {
    var t := PyStr(Int(i));
    if i < 0 {
      var digits := NatToDecimal(-i);
      assert t == "-" + digits;
      assert t[|t| - 1] == digits[|digits| - 1];
      StripUnpadded(t);
      assert t[1..] == digits;
    } else {
      StripUnpadded(t);
    }
  }
}
