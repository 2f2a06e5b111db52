/** The JavaScript values the service moves around, restricted to what
    its tables hold: null, strings, integer-valued numbers and booleans.
    A record is an object with its own properties kept in insertion order,
    which is how `Object.keys` lists them when no key is integer-like; JSON
    serialisation follows `JSON.stringify` (ECMA-262, section 25.5.2). */
module Js {
  import opened Wrappers
  import opened Text

  datatype Value = Null | Str(s: string) | Num(n: int) | Bool(b: bool)

  /** An object as an ordered list of (property, value) pairs. */
  type Object<V> = seq<(string, V)>

  /** A table row: an object whose properties hold values. */
  type Record = Object<Value>

  /** JavaScript truthiness of a possibly undefined value (`!!v`). */
  predicate Truthy(v: Option<Value>) {
    match v
    case None => false
    case Some(Null) => false
    case Some(Str(s)) => s != ""
    case Some(Num(n)) => n != 0
    case Some(Bool(b)) => b
  }

  /** `ToString(v)`, as a template literal `${v}` applies it. */
  function ToJsString(v: Option<Value>): string {
    match v
    case None => "undefined"
    case Some(Null) => "null"
    case Some(Str(s)) => s
    case Some(Num(n)) => IntToDecimal(n)
    case Some(Bool(b)) => if b then "true" else "false"
  }

  // ---------------------------------------------------------------------------
  // objects
  // ---------------------------------------------------------------------------

  /** `Object.keys(o)` */
  function Keys<V>(o: Object<V>): (ks: seq<string>)
    ensures |ks| == |o|
    ensures forall i | 0 <= i < |o| :: ks[i] == o[i].0
  {
    seq(|o|, i requires 0 <= i < |o| => o[i].0)
  }

  predicate Distinct(ks: seq<string>) {
    forall i, j | 0 <= i < j < |ks| :: ks[i] != ks[j]
  }

  /** An object as JavaScript can hold one: no property twice. */
  predicate WellFormed<V>(o: Object<V>) {
    Distinct(Keys(o))
  }

  /** `o[k]`, `None` when the property is absent. */
  function Lookup<V>(o: Object<V>, k: string): Option<V>
    decreases |o|
  {
    if |o| == 0 then None
    else if o[0].0 == k then Some(o[0].1)
    else Lookup(o[1..], k)
  }

  /** `o[k] = v`: an existing property keeps its position and takes the new
      value; a new property is appended. */
  function Assign<V>(o: Object<V>, k: string, v: V): (r: Object<V>)
    decreases |o|
  {
    if |o| == 0 then [(k, v)]
    else if o[0].0 == k then [(k, v)] + o[1..]
    else [o[0]] + Assign(o[1..], k, v)
  }

  /** Assignment sets the property and leaves every other property's value alone. */
  lemma {:induction false} AssignLookup<V>(o: Object<V>, k: string, v: V)
    ensures Lookup(Assign(o, k, v), k) == Some(v)
    ensures forall k' | k' != k :: Lookup(Assign(o, k, v), k') == Lookup(o, k')
    decreases |o|
  {
    if |o| > 0 && o[0].0 != k {
      AssignLookup(o[1..], k, v);
      assert Assign(o, k, v)[1..] == Assign(o[1..], k, v);
    }
  }

  /** Assignment appends the key when it is new and keeps the key list otherwise. */
  lemma {:induction false} AssignKeys<V>(o: Object<V>, k: string, v: V)
    ensures Lookup(o, k).None? ==> Keys(Assign(o, k, v)) == Keys(o) + [k]
    ensures Lookup(o, k).Some? ==> Keys(Assign(o, k, v)) == Keys(o)
    decreases |o|
  {
    if |o| == 0 {
      assert Keys(Assign(o, k, v)) == [k];
    } else if o[0].0 == k {
      var r := Assign(o, k, v);
      assert r == [(k, v)] + o[1..];
      assert forall i | 0 <= i < |r| :: r[i].0 == o[i].0;
    } else {
      var tail := Assign(o[1..], k, v);
      assert Lookup(o, k) == Lookup(o[1..], k);
      AssignKeys(o[1..], k, v);
      assert Assign(o, k, v) == [o[0]] + tail;
      KeysCons(o[0], tail);
      KeysCons(o[0], o[1..]);
      assert o == [o[0]] + o[1..];
    }
  }

  lemma KeysCons<V>(p: (string, V), o: Object<V>)
    ensures Keys([p] + o) == [p.0] + Keys(o)
  {
  }

  /** Assigning a property the object lacks appends it. */
  lemma {:induction false} AssignAppends<V>(o: Object<V>, k: string, v: V)
    requires Lookup(o, k).None?
    ensures Assign(o, k, v) == o + [(k, v)]
    decreases |o|
  {
    if |o| > 0 {
      AssignAppends(o[1..], k, v);
      assert o == [o[0]] + o[1..];
    }
  }

  /** Assignment keeps an object free of repeated properties. */
  lemma AssignWellFormed<V>(o: Object<V>, k: string, v: V)
    requires WellFormed(o)
    ensures WellFormed(Assign(o, k, v))
  {
    AssignKeys(o, k, v);
    if Lookup(o, k).None? {
      LookupSomeIffKey(o, k);
      var ks := Keys(o) + [k];
      forall i, j | 0 <= i < j < |ks|
        ensures ks[i] != ks[j]
      {
        if j == |o| {
          assert ks[i] == o[i].0;
        }
      }
    }
  }

  /** A property is present exactly when some pair carries its key. */
  lemma {:induction false} LookupSomeIffKey<V>(o: Object<V>, k: string)
    ensures Lookup(o, k).Some? <==> exists i | 0 <= i < |o| :: o[i].0 == k
    decreases |o|
  {
    if |o| > 0 {
      LookupSomeIffKey(o[1..], k);
      if o[0].0 != k && Lookup(o, k).Some? {
        var i :| 0 <= i < |o[1..]| && o[1..][i].0 == k;
        assert o[i + 1].0 == k;
      }
      if o[0].0 != k && exists i | 0 <= i < |o| :: o[i].0 == k {
        var i :| 0 <= i < |o| && o[i].0 == k;
        assert o[1..][i - 1].0 == k;
      }
    }
  }

  /** In a well-formed object, the i-th pair is what its key looks up. */
  lemma {:induction false} LookupAt<V>(o: Object<V>, i: nat)
    requires WellFormed(o) && i < |o|
    ensures Lookup(o, o[i].0) == Some(o[i].1)
    decreases i
  {
    if i > 0 {
      assert Keys(o)[0] != Keys(o)[i];
      assert WellFormed(o[1..]) by {
        assert Keys(o[1..]) == Keys(o)[1..];
      }
      LookupAt(o[1..], i - 1);
    }
  }

  // ---------------------------------------------------------------------------
  // JSON.stringify
  // ---------------------------------------------------------------------------

  function HexDigit(d: nat): char
    requires d < 16
  {
    "0123456789abcdef"[d]
  }

  /** One code point as QuoteJSONString emits it. */
  function EscapeChar(c: char): string {
    if c == '\U{0008}' then "\\b"
    else if c == '\t' then "\\t"
    else if c == '\n' then "\\n"
    else if c == '\U{000C}' then "\\f"
    else if c == '\r' then "\\r"
    else if c == '"' then "\\\""
    else if c == '\\' then "\\\\"
    else if c < ' ' then
      "\\u00" + [HexDigit((c as int) / 16), HexDigit((c as int) % 16)]
    else [c]
  }

  function Escape(s: string): string
    decreases |s|
  {
    if |s| == 0 then "" else EscapeChar(s[0]) + Escape(s[1..])
  }

  /** QuoteJSONString(s) */
  function Quote(s: string): string {
    "\"" + Escape(s) + "\""
  }

  /** `JSON.stringify(v)` for the value kinds the model keeps. */
  function Stringify(v: Value): string {
    match v
    case Null => "null"
    case Str(s) => Quote(s)
    case Num(n) => IntToDecimal(n)
    case Bool(b) => if b then "true" else "false"
  }

  /** A string JSON leaves alone: no quote, no backslash, no control character. */
  predicate Plain(s: string) {
    forall i | 0 <= i < |s| :: s[i] != '"' && s[i] != '\\' && s[i] >= ' '
  }

  /** What escaping does to one code point. */
  lemma EscapeCharSpec(c: char)
    ensures |EscapeChar(c)| >= 1
    ensures EscapeChar(c) == [c] <==> (c != '"' && c != '\\' && c >= ' ')
    ensures '"' in EscapeChar(c) <==> c == '"'
    ensures '\n' !in EscapeChar(c)
  {
  }

  /** Escaping changes a string exactly when it is not plain. */
  lemma {:induction false} EscapeIdentityIffPlain(s: string)
    ensures Escape(s) == s <==> Plain(s)
    decreases |s|
  {
    if |s| > 0 {
      EscapeIdentityIffPlain(s[1..]);
      EscapeLength(s[1..]);
      EscapeCharSpec(s[0]);
      var e := EscapeChar(s[0]);
      assert Escape(s) == e + Escape(s[1..]);
      assert s == [s[0]] + s[1..];
      if Escape(s) == s {
        assert |e| == 1 by {
          assert |Escape(s)| == |e| + |Escape(s[1..])|;
        }
        assert e == [s[0]];
        assert Escape(s[1..]) == s[1..];
        forall i | 0 <= i < |s|
          ensures s[i] != '"' && s[i] != '\\' && s[i] >= ' '
        {
          if i > 0 {
            assert s[i] == s[1..][i - 1];
          }
        }
      }
      if Plain(s) {
        assert Plain(s[1..]) by {
          forall i | 0 <= i < |s[1..]|
            ensures s[1..][i] != '"' && s[1..][i] != '\\' && s[1..][i] >= ' '
          {
            assert s[1..][i] == s[i + 1];
          }
        }
      }
    }
  }

  /** Escaping never drops a character. */
  lemma {:induction false} EscapeLength(s: string)
    ensures |Escape(s)| >= |s|
    decreases |s|
  {
    if |s| > 0 {
      EscapeLength(s[1..]);
      EscapeCharSpec(s[0]);
    }
  }

  /** Escaping introduces a quote only where the input had one, and never
      leaves a line feed. */
  lemma {:induction false} EscapeQuotesAndLines(s: string)
    ensures '"' in Escape(s) <==> '"' in s
    ensures '\n' !in Escape(s)
    decreases |s|
  {
    if |s| > 0 {
      EscapeQuotesAndLines(s[1..]);
      EscapeCharSpec(s[0]);
      assert Escape(s) == EscapeChar(s[0]) + Escape(s[1..]);
      assert s == [s[0]] + s[1..];
    }
  }
}
