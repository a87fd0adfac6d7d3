/** Request input as the controllers and validators see it. Strings are taken
    after the framework's global input middleware, which trims every string and
    turns an empty one into null; so a string that reaches the application is
    never blank. */
module Http {

  /** The characters trimmed from both ends of every input string. */
  predicate IsSpace(c: char)
  {
    c == ' ' || c == '\t' || c == '\n' || c == '\r' || c == '\0' || c == '\U{0B}'
  }

  type Text = s: string | |s| > 0 && !IsSpace(s[0]) && !IsSpace(s[|s| - 1]) witness "x"

  /** A decoded request value. */
  datatype Val = Null | Bool(b: bool) | Int(i: int) | Str(s: Text) | Arr(items: seq<Val>)

  /** A request body: the fields it carries. A name not in the map is absent. */
  type Input = map<string, Val>

  /** A query-string parameter: not sent, sent empty (null after the
      middleware), or sent with a value. */
  datatype Param<T> = Absent | Empty | Given(value: T)

  /** `$request->name ?? default`: the field's value unless it is absent or null. */
  function Coalesce(input: Input, name: string, default: Val): (v: Val)
    ensures name !in input || input[name] == Null ==> v == default
    ensures name in input && input[name] != Null ==> v == input[name]
  {
    if name in input && input[name] != Null then input[name] else default
  }

  /** Whether the request gives a new value for `name` (present and not null). */
  predicate Gives(input: Input, name: string)
  {
    name in input && input[name] != Null
  }

  /** `$request->name ?? $previous` for a field that is a string when given. */
  function StringOr(input: Input, name: string, previous: string): string
    requires name in input ==> input[name].Str? || input[name].Null?
  {
    match Coalesce(input, name, Null)
    case Str(s) => s
    case _ => previous
  }

  /** PHP's `(bool)` cast, which the `boolean` attribute cast applies when the
      stored value is read back. */
  function AsBool(v: Val): bool
  {
    match v
    case Null => false
    case Bool(b) => b
    case Int(i) => i != 0
    case Str(s) => s != "0"
    case Arr(items) => items != []
  }
}
