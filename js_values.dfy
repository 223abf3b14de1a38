/**
 * The JavaScript values the action passes around: parsed JSON, the
 * parameter record, registry responses and whatever a call rejects with,
 * together with the few language rules the action relies on (truthiness,
 * property reads, strict equality, template-string conversion) and the
 * exceptions it throws.
 */
module JsValues {

  /** A JavaScript value as far as the action can observe it. Numbers are
      integers here; objects are maps from property name to value. */
  datatype Val =
    | Undefined
    | Null
    | Bool(b: bool)
    | Num(n: int)
    | Str(s: string)
    | Arr(items: seq<Val>)
    | Obj(fields: map<string, Val>)

  /** What `throw` or a rejected promise carries in the action. */
  datatype Exception =
      /** `new NotFoundException(message)`: its `name` is 'NotFoundException' */
    | NotFoundException(message: string)
      /** `new Error(message)` with a message known as text */
    | PlainError(message: string)
      /** `new Error('Error searching for Service: Response: ' + JSON text of response)` */
    | SearchFailed(response: Val)
      /** `new Error('Failed to delete service: ' + JSON text of response)` */
    | DeleteFailed(response: Val)
      /** what `JSON.parse` throws on malformed text */
    | SyntaxError(message: string)
      /** a runtime type fault: a property read on undefined or null, or a call of a non-function */
    | TypeError
      /** a value the registry client rejected with, passed on unchanged */
    | Rejection(reason: Val)
      /** not thrown by the program: the search was still walking pages when its fuel ran out */
    | Unfinished

  /** `err.name` for a thrown value that is neither undefined nor null.
      `Unfinished` is never thrown, so it has no name. */
  function ErrorName(e: Exception): (r: Val)
    requires !(e.Rejection? && Nullish(e.reason))
    ensures !e.Rejection? && !e.Unfinished? ==> r.Str?
    ensures r == Str("NotFoundException")
        <==> e.NotFoundException? || (e.Rejection? && Get(e.reason, "name") == Str("NotFoundException"))
  {
    match e
    case NotFoundException(_) => Str("NotFoundException")
    case PlainError(_) => Str("Error")
    case SearchFailed(_) => Str("Error")
    case DeleteFailed(_) => Str("Error")
    case SyntaxError(_) => Str("SyntaxError")
    case TypeError => Str("TypeError")
    case Rejection(reason) => Get(reason, "name")
    case Unfinished => Undefined
  }

  datatype Result<+T> = Ok(value: T) | Throw(exception: Exception)

  datatype Option<+T> = None | Some(value: T)

  /** `!!v` */
  predicate Truthy(v: Val)
  {
    match v
    case Undefined => false
    case Null => false
    case Bool(b) => b
    case Num(n) => n != 0
    case Str(s) => s != ""
    case Arr(_) => true
    case Obj(_) => true
  }

  /** undefined or null: the two values a property read throws on */
  predicate Nullish(v: Val)
  {
    v.Undefined? || v.Null?
  }

  /** `obj.key` on an object given as its property map */
  function Field(obj: map<string, Val>, key: string): (r: Val)
    ensures key in obj ==> r == obj[key]
    ensures key !in obj ==> r == Undefined
  {
    if key in obj then obj[key] else Undefined
  }

  /** `v.key` on a value that is neither undefined nor null. Only objects carry
      the properties this model reads (none of them is a built-in property of
      strings, numbers, booleans or arrays), so everything else yields undefined. */
  function Get(v: Val, key: string): (r: Val)
    ensures r != Undefined ==> v.Obj? && key in v.fields && r == v.fields[key]
    ensures v.Obj? && key in v.fields ==> r == v.fields[key]
  {
    if v.Obj? then Field(v.fields, key) else Undefined
  }

  /** `a === b`. Two arrays or objects are never the same reference here: the
      values compared by the action come from different sources (the input
      parameters and a registry response). */
  predicate StrictEquals(a: Val, b: Val)
  {
    a == b && !a.Arr? && !a.Obj?
  }

  /** The falsy values of JavaScript that the model has: undefined, null,
      false, zero and the empty string. Every other value is truthy. */
  lemma FalsyValues(v: Val)
    ensures !Truthy(v) <==> v == Undefined || v == Null || v == Bool(false) || v == Num(0) || v == Str("")
  {
  }

  /** Strict equality is symmetric, never holds between different values,
      and on primitives is plain equality. */
  lemma StrictEqualsOnPrimitives(a: Val, b: Val)
    ensures StrictEquals(a, b) <==> StrictEquals(b, a)
    ensures StrictEquals(a, b) ==> a == b
    ensures !a.Arr? && !a.Obj? ==> (StrictEquals(a, b) <==> a == b)
  {
  }

  /** The decimal text of an integer, as `String(n)` gives it. */
  function IntToString(n: int): (r: string)
    ensures r != []
    ensures n < 0 <==> r[0] == '-'
    decreases if n < 0 then 1 - n else n
  {
    if n < 0 then "-" + NatToString(-n) else NatToString(n)
  }

  function NatToString(n: nat): (r: string)
    ensures r != [] && r[0] != '-'
    ensures forall i | 0 <= i < |r| :: '0' <= r[i] <= '9'
  {
    var d := ['0' + (n % 10) as char];
    if n < 10 then d else NatToString(n / 10) + d
  }

  /** `${v}`: the text a template string inserts for a value. */
  function TemplateString(v: Val): string
  {
    match v
    case Undefined => "undefined"
    case Null => "null"
    case Bool(b) => if b then "true" else "false"
    case Num(n) => IntToString(n)
    case Str(s) => s
    case Arr(items) => JoinItems(items, v)
    case Obj(_) => "[object Object]"
  }

  /** `items.join(',')`: undefined and null elements become empty text. */
  function JoinItems(items: seq<Val>, ghost whole: Val): string
    requires forall i | 0 <= i < |items| :: items[i] < whole
    decreases whole, |items|
  {
    if items == [] then ""
    else
      var first := if Nullish(items[0]) then "" else TemplateString(items[0]);
      if |items| == 1 then first else first + "," + JoinItems(items[1..], whole)
  }
}
