/**
 * The syntactic validator of a submitted recipe form (`validateRecipeData`).
 *
 * A recipe arrives as a loosely typed bag of JavaScript values; each of the
 * three required fields is rejected when it is missing, falsy, not a string,
 * or empty once surrounding white space is trimmed, and every rejected field
 * contributes one Polish message naming it.
 */
module RecipeValidation {
  import opened Wrappers

  /** The JavaScript values a form field can hold. A finite IEEE double is
      modelled by its real value (the sign of zero is dropped); the non-finite
      numbers are `NaN` and the two infinities. */
  datatype JsValue =
    | Undefined
    | Null
    | Boolean(b: bool)
    | Number(n: real)
    | NaN
    | Infinity(negative: bool)
    | BigInt(i: int)
    | Str(s: string)
    | Object

  /** A submitted recipe: property name to value; an absent property reads as `undefined`. */
  type RecipeInput = map<string, JsValue>

  /** `recipe[field]` */
  function Lookup(recipe: RecipeInput, field: string): JsValue {
    if field in recipe then recipe[field] else Undefined
  }

  /** JavaScript's ToBoolean is false exactly for these values (`!v` is true). */
  predicate IsFalsy(v: JsValue) {
    match v
    case Undefined => true
    case Null => true
    case Boolean(b) => !b
    case Number(n) => n == 0.0
    case NaN => true
    case BigInt(i) => i == 0
    case Str(s) => s == []
    case _ => false
  }

  /** The code points `String.prototype.trim` strips: ECMAScript's WhiteSpace
      (TAB, VT, FF, SPACE, NBSP, ZWNBSP and the Unicode category Zs) and
      LineTerminator (LF, CR, LINE SEPARATOR, PARAGRAPH SEPARATOR). */
  predicate IsWhitespace(c: char) {
    || c == '\t' || c == '\n' || c == '\U{000B}' || c == '\U{000C}' || c == '\r'
    || c == ' ' || c == '\U{00A0}' || c == '\U{1680}'
    || ('\U{2000}' <= c <= '\U{200A}')
    || c == '\U{2028}' || c == '\U{2029}' || c == '\U{202F}' || c == '\U{205F}'
    || c == '\U{3000}' || c == '\U{FEFF}'
  }

  /** Strips leading white space. */
  function TrimStart(s: string): string {
    if s != [] && IsWhitespace(s[0]) then TrimStart(s[1..]) else s
  }

  /** Strips trailing white space. */
  function TrimEnd(s: string): string {
    if s != [] && IsWhitespace(s[|s| - 1]) then TrimEnd(s[..|s| - 1]) else s
  }

  /** `s.trim()` */
  function Trim(s: string): string {
    TrimEnd(TrimStart(s))
  }

  /** `TrimStart` keeps a suffix of `s` that does not start with white space,
      and everything it cuts off is white space. */
  lemma {:induction false} TrimStartShape(s: string)
    ensures |TrimStart(s)| <= |s| && TrimStart(s) == s[|s| - |TrimStart(s)|..]
    ensures forall j :: 0 <= j < |s| - |TrimStart(s)| ==> IsWhitespace(s[j])
    ensures TrimStart(s) != [] ==> !IsWhitespace(TrimStart(s)[0])
  {
    if s != [] && IsWhitespace(s[0]) {
      var rest := s[1..];
      var t := TrimStart(rest);
      assert TrimStart(s) == t;
      TrimStartShape(rest);
      assert rest[|rest| - |t|..] == s[|s| - |t|..];
      forall j | 0 <= j < |s| - |t| ensures IsWhitespace(s[j]) {
        if j > 0 {
          assert s[j] == rest[j - 1];
        }
      }
    }
  }

  /** `TrimEnd` keeps a prefix of `s` that does not end with white space, and
      everything it cuts off is white space. */
  lemma {:induction false} TrimEndShape(s: string)
    ensures |TrimEnd(s)| <= |s| && TrimEnd(s) == s[..|TrimEnd(s)|]
    ensures forall j :: |TrimEnd(s)| <= j < |s| ==> IsWhitespace(s[j])
    ensures TrimEnd(s) != [] ==> !IsWhitespace(TrimEnd(s)[|TrimEnd(s)| - 1])
  {
    if s != [] && IsWhitespace(s[|s| - 1]) {
      var rest := s[..|s| - 1];
      var t := TrimEnd(rest);
      assert TrimEnd(s) == t;
      TrimEndShape(rest);
      assert rest[..|t|] == s[..|t|];
      forall j | |t| <= j < |s| ensures IsWhitespace(s[j]) {
        if j < |s| - 1 {
          assert s[j] == rest[j];
        }
      }
    }
  }

  /** `s.trim().length === 0` holds exactly when every character of `s` is white space. */
  lemma TrimEmptyIff(s: string)
    ensures Trim(s) == [] <==> forall j :: 0 <= j < |s| ==> IsWhitespace(s[j])
  {
    var t := TrimStart(s);
    TrimStartShape(s);
    TrimEndShape(t);
    if Trim(s) == [] {
      assert |t| == 0;
    } else {
      assert s[|s| - |t|] == t[0];
    }
  }

  /** The guard of the loop body: `!v || typeof v !== "string" || v.trim().length === 0`. */
  predicate IsRejected(v: JsValue) {
    IsFalsy(v) || !v.Str? || |Trim(v.s)| == 0
  }

  /** A field is rejected exactly when it is not a string holding some
      character other than white space. */
  lemma RejectedIff(v: JsValue)
    ensures IsRejected(v) <==> !(v.Str? && exists j :: 0 <= j < |v.s| && !IsWhitespace(v.s[j]))
  {
    if v.Str? {
      TrimEmptyIff(v.s);
    }
  }

  /** The three required fields of a recipe. */
  datatype Field = Title | Ingredients | Instructions

  /** The property name under which a field is submitted. */
  function Name(f: Field): string {
    match f
    case Title => "title"
    case Ingredients => "ingredients"
    case Instructions => "instructions"
  }

  /** Reads a property name back as a field. */
  function ParseField(name: string): (r: Option<Field>)
    ensures r.Some? ==> Name(r.value) == name
  {
    if name == "title" then Some(Title)
    else if name == "ingredients" then Some(Ingredients)
    else if name == "instructions" then Some(Instructions)
    else None
  }

  /** Every field's name reads back as that field. */
  lemma ParseFieldName(f: Field)
    ensures ParseField(Name(f)) == Some(f)
  {
  }

  /** The fields, in the order they are checked. */
  const Fields: seq<Field> := [Title, Ingredients, Instructions]

  const MessagePrefix: string := "Pole \""
  const MessageSuffix: string := "\" jest wymagane."

  /** The message reported for a rejected field. */
  function Message(f: Field): string {
    MessagePrefix + Name(f) + MessageSuffix
  }

  /** Reads back the field a message names, if it has the shape of one. */
  function MessageField(m: string): Option<Field> {
    if |MessagePrefix| + |MessageSuffix| <= |m|
       && m[..|MessagePrefix|] == MessagePrefix
       && m[|m| - |MessageSuffix|..] == MessageSuffix
    then ParseField(m[|MessagePrefix|..|m| - |MessageSuffix|])
    else None
  }

  /** Every message names its field: reading the field back gives it. */
  lemma MessageNamesField(f: Field)
    ensures MessageField(Message(f)) == Some(f)
  {
    var m := Message(f);
    assert m[..|MessagePrefix|] == MessagePrefix;
    assert m[|m| - |MessageSuffix|..] == MessageSuffix;
    assert m[|MessagePrefix|..|m| - |MessageSuffix|] == Name(f);
    ParseFieldName(f);
  }

  /** Whether the recipe fails the check of field `f`. */
  predicate Fails(recipe: RecipeInput, f: Field) {
    IsRejected(Lookup(recipe, Name(f)))
  }

  /** The fields of `fields` that `recipe` fails, in their original order. */
  function RejectedFields(recipe: RecipeInput, fields: seq<Field>): (r: seq<Field>)
    ensures |r| <= |fields|
  {
    if fields == [] then []
    else
      var last := fields[|fields| - 1];
      RejectedFields(recipe, fields[..|fields| - 1]) + (if Fails(recipe, last) then [last] else [])
  }

  /** A field is listed exactly when it is among those checked and the recipe fails it. */
  lemma {:induction false} RejectedFieldsMembers(recipe: RecipeInput, fields: seq<Field>, f: Field)
    ensures f in RejectedFields(recipe, fields) <==> f in fields && Fails(recipe, f)
  {
    if fields != [] {
      var init := fields[..|fields| - 1];
      assert fields == init + [fields[|fields| - 1]];
      RejectedFieldsMembers(recipe, init, f);
    }
  }

  /** One message per field, in the same order. */
  function Messages(fields: seq<Field>): (r: seq<string>)
    ensures |r| == |fields|
  {
    seq(|fields|, i requires 0 <= i < |fields| => Message(fields[i]))
  }

  /** What `validateRecipeData` returns: a message for each rejected field,
      at most one per field and so never more than three. */
  function ValidationErrors(recipe: RecipeInput): (r: seq<string>)
    ensures |r| <= |Fields|
  {
    Messages(RejectedFields(recipe, Fields))
  }

  /** `validateRecipeData(recipe)`: walks the field list and collects a message
      for every field that is missing, falsy, not a string or blank. */
  method ValidateRecipeData(recipe: RecipeInput) returns (errors: seq<string>)
    ensures errors == ValidationErrors(recipe)
  {
    errors := [];
    for i := 0 to |Fields|
      invariant errors == Messages(RejectedFields(recipe, Fields[..i]))
    {
      var field := Fields[i];
      var value := Lookup(recipe, Name(field));
      assert Fields[..i + 1][..i] == Fields[..i];
      if IsFalsy(value) || !value.Str? || |Trim(value.s)| == 0 {
        errors := errors + [Message(field)];
      }
    }
    assert Fields[..|Fields|] == Fields;
  }

  /** The message for field `f` when the recipe fails it, nothing otherwise. */
  function Check(recipe: RecipeInput, f: Field): seq<string> {
    if Fails(recipe, f) then [Message(f)] else []
  }

  /** Messages of a concatenation are the concatenated messages. */
  lemma MessagesAppend(a: seq<Field>, b: seq<Field>)
    ensures Messages(a + b) == Messages(a) + Messages(b)
  {
    var ab := a + b;
    forall i | 0 <= i < |ab| ensures Messages(ab)[i] == (Messages(a) + Messages(b))[i] {
      if i < |a| {
        assert ab[i] == a[i];
      } else {
        assert ab[i] == b[i - |a|];
      }
    }
  }

  /** The fields the recipe fails, spelled out in checking order. */
  lemma RejectedFieldsExplicit(recipe: RecipeInput)
    ensures RejectedFields(recipe, Fields)
         == (if Fails(recipe, Title) then [Title] else [])
          + (if Fails(recipe, Ingredients) then [Ingredients] else [])
          + (if Fails(recipe, Instructions) then [Instructions] else [])
  {
    var c1 := if Fails(recipe, Title) then [Title] else [];
    var c2 := if Fails(recipe, Ingredients) then [Ingredients] else [];
    var c3 := if Fails(recipe, Instructions) then [Instructions] else [];
    assert [Title][..0] == [];
    assert RejectedFields(recipe, [Title]) == c1;
    assert [Title, Ingredients][..1] == [Title];
    assert RejectedFields(recipe, [Title, Ingredients]) == c1 + c2;
    assert Fields[..2] == [Title, Ingredients];
    assert RejectedFields(recipe, Fields) == c1 + c2 + c3;
  }

  /** The result is the title's message, then the ingredients', then the
      instructions', each present exactly when that field fails. */
  lemma {:induction false} ValidationErrorsExplicit(recipe: RecipeInput)
    ensures ValidationErrors(recipe)
         == Check(recipe, Title) + Check(recipe, Ingredients) + Check(recipe, Instructions)
  {
    var c1 := if Fails(recipe, Title) then [Title] else [];
    var c2 := if Fails(recipe, Ingredients) then [Ingredients] else [];
    var c3 := if Fails(recipe, Instructions) then [Instructions] else [];
    RejectedFieldsExplicit(recipe);
    MessagesAppend(c1 + c2, c3);
    MessagesAppend(c1, c2);
  }

  /** What the validator accepts for a field: a string that is not blank. */
  predicate IsNonBlankString(v: JsValue) {
    v.Str? && Trim(v.s) != []
  }

  /** The same guard without the redundant falsy test: a field is rejected
      exactly when it is not a string or trims to the empty string. */
  lemma RejectedIffBlank(v: JsValue)
    ensures IsRejected(v) <==> !IsNonBlankString(v)
  {
    if v.Str? && v.s == [] {
      assert TrimStart(v.s) == [];
    }
  }

  /** The result is empty exactly when all three fields hold non-blank strings. */
  lemma ValidationEmptyIff(recipe: RecipeInput)
    ensures ValidationErrors(recipe) == [] <==>
      forall f: Field :: IsNonBlankString(Lookup(recipe, Name(f)))
  {
    RejectedFieldsExplicit(recipe);
    forall f: Field ensures Fails(recipe, f) <==> !IsNonBlankString(Lookup(recipe, Name(f))) {
      RejectedIffBlank(Lookup(recipe, Name(f)));
    }
  }

  /** A field's message is among the messages of a list exactly when the
      field is in the list. */
  lemma MessageInMessages(fields: seq<Field>, f: Field)
    ensures Message(f) in Messages(fields) <==> f in fields
  {
    var ms := Messages(fields);
    if Message(f) in ms {
      var i :| 0 <= i < |ms| && ms[i] == Message(f);
      MessageNamesField(f);
      MessageNamesField(fields[i]);
      assert fields[i] in fields;
    }
    if f in fields {
      var i :| 0 <= i < |fields| && fields[i] == f;
      assert ms[i] == Message(f);
    }
  }

  /** Every message of a list reads back as a field of the list. */
  lemma MessagesReadBack(fields: seq<Field>)
    ensures forall m :: m in Messages(fields) ==> MessageField(m).Some? && MessageField(m).value in fields
  {
    var ms := Messages(fields);
    forall m | m in ms ensures MessageField(m).Some? && MessageField(m).value in fields {
      var i :| 0 <= i < |ms| && ms[i] == m;
      MessageNamesField(fields[i]);
      assert fields[i] in fields;
    }
  }

  /** The message of field `f` is in the result exactly when the recipe fails
      `f`, and every message in the result reads back as a field that failed. */
  lemma ValidationMessagesIdentifyFields(recipe: RecipeInput, f: Field)
    ensures Message(f) in ValidationErrors(recipe) <==> Fails(recipe, f)
    ensures forall m :: m in ValidationErrors(recipe) ==>
      MessageField(m).Some? && Fails(recipe, MessageField(m).value)
  {
    var rejected := RejectedFields(recipe, Fields);
    assert f in Fields by {
      assert Fields[0] == Title && Fields[1] == Ingredients && Fields[2] == Instructions;
    }
    RejectedFieldsMembers(recipe, Fields, f);
    MessageInMessages(rejected, f);
    MessagesReadBack(rejected);
    forall g | g in rejected ensures Fails(recipe, g) {
      RejectedFieldsMembers(recipe, Fields, g);
    }
  }
}
