/**
 * The `ReferenceCategory` enum as packages/lsp-extension/src/lsp-extension.js
 * builds it: one JavaScript object holding both the forward table
 * (name to number) and the reverse table (number, as a property key, to name).
 */
module ReferenceCategories {
  import opened Wrappers

  /** The categories, in their declaration order. */
  datatype ReferenceCategory = UNCATEGORIZED | READ | WRITE | INHERIT | IMPLEMENT

  const Declared: seq<ReferenceCategory> := [UNCATEGORIZED, READ, WRITE, INHERIT, IMPLEMENT]

  /** The member's name, the forward table's key. */
  function Name(c: ReferenceCategory): string {
    match c
    case UNCATEGORIZED => "UNCATEGORIZED"
    case READ => "READ"
    case WRITE => "WRITE"
    case INHERIT => "INHERIT"
    case IMPLEMENT => "IMPLEMENT"
  }

  /** The number each member is assigned in the initialiser. */
  function Assigned(c: ReferenceCategory): nat {
    match c
    case UNCATEGORIZED => 0
    case READ => 1
    case WRITE => 2
    case INHERIT => 3
    case IMPLEMENT => 4
  }

  /** A JavaScript property value: the enum object holds numbers and strings. */
  datatype JsValue = Num(n: int) | Str(s: string)

  /** A JavaScript object as a property map. */
  type JsObject = map<string, JsValue>

  /** The property key a one-digit number becomes. */
  function DigitKey(v: nat): (k: string)
    requires v < 10
    ensures |k| == 1 && '0' <= k[0] <= '9'
    ensures k[0] as int - '0' as int == v
  {
    [(48 + v) as char]
  }

  /** `E[E[name] = v] = name`: the forward entry, then the reverse entry keyed by the assigned number. */
  function Assign(obj: JsObject, c: ReferenceCategory): JsObject {
    obj[Name(c) := Num(Assigned(c))][DigitKey(Assigned(c)) := Str(Name(c))]
  }

  /**
   * The initialiser: it starts from `exports.ReferenceCategory` when that is
   * already defined, else from `{}`, and makes the five assignments in order.
   */
  function Initialise(existing: Option<JsObject>): JsObject {
    var obj := existing.GetOr(map[]);
    Assign(Assign(Assign(Assign(Assign(obj, UNCATEGORIZED), READ), WRITE), INHERIT), IMPLEMENT)
  }

  /** The table as first built, when no `exports.ReferenceCategory` existed. */
  function Table(): JsObject {
    Initialise(None)
  }

  /** Forward lookup `ReferenceCategory[name]`, when it yields a number. */
  function ValueOf(name: string): Option<int> {
    if name in Table() && Table()[name].Num? then Some(Table()[name].n) else None
  }

  /** Reverse lookup `ReferenceCategory[v]`, when it yields a name. */
  function NameOf(v: int): Option<string> {
    if 0 <= v < 10 && DigitKey(v) in Table() && Table()[DigitKey(v)].Str? then Some(Table()[DigitKey(v)].s)
    else None
  }

  /** The forward table: UNCATEGORIZED=0, READ=1, WRITE=2, INHERIT=3, IMPLEMENT=4. */
  lemma ForwardValues()
    ensures ValueOf("UNCATEGORIZED") == Some(0)
    ensures ValueOf("READ") == Some(1)
    ensures ValueOf("WRITE") == Some(2)
    ensures ValueOf("INHERIT") == Some(3)
    ensures ValueOf("IMPLEMENT") == Some(4)
  {
  }

  /** The reverse table sends 0..4 back to the names in the same order. */
  lemma ReverseValues()
    ensures NameOf(0) == Some("UNCATEGORIZED")
    ensures NameOf(1) == Some("READ")
    ensures NameOf(2) == Some("WRITE")
    ensures NameOf(3) == Some("INHERIT")
    ensures NameOf(4) == Some("IMPLEMENT")
  {
  }

  /** The table has exactly the five names and the five digit keys. */
  lemma TableKeys()
    ensures Table().Keys ==
      {"UNCATEGORIZED", "READ", "WRITE", "INHERIT", "IMPLEMENT", "0", "1", "2", "3", "4"}
  {
  }

  /** The number of each member is its position in the declaration order: distinct and consecutive from 0. */
  lemma DeclarationOrder(i: nat)
    requires i < |Declared|
    ensures ValueOf(Name(Declared[i])) == Some(i)
  {
    ForwardValues();
  }

  /** name -> value -> name is the identity on the five names. */
  lemma NameValueName(c: ReferenceCategory)
    ensures ValueOf(Name(c)).Some? && NameOf(ValueOf(Name(c)).value) == Some(Name(c))
  {
    ForwardValues();
    ReverseValues();
  }

  /** value -> name -> value is the identity on 0..4, and no other number has a name. */
  lemma ValueNameValue(v: int)
    ensures NameOf(v).Some? <==> 0 <= v < 5
    ensures 0 <= v < 5 ==> ValueOf(NameOf(v).value) == Some(v)
  {
    ForwardValues();
    ReverseValues();
    TableKeys();
  }

  /** Running the initialiser on the object it built leaves that object as it was. */
  lemma InitialiseIdempotent(existing: Option<JsObject>)
    ensures Initialise(Some(Initialise(existing))) == Initialise(existing)
  {
  }

  /** Properties of a pre-existing object that are not enum keys survive the initialiser. */
  lemma InitialiseKeepsOtherKeys(obj: JsObject, k: string)
    requires k in obj && k !in Table().Keys
    ensures k in Initialise(Some(obj)) && Initialise(Some(obj))[k] == obj[k]
  {
    TableKeys();
  }
}
