/** `getTokenInfo` and `getTokens` of ens-collections' `utils.js`: from an
    ENS name to its label, ASCII form, label hash and token id. The UTS-46
    conversions, keccak-256 and the hex-to-decimal conversion are library
    calls; they are parameters here, and only the name handling around them
    is modelled concretely. */
module Tokens {
  import opened JsValues
  import opened JsStrings
  import NameLists

  /** The library functions `getTokenInfo` calls: `uts46.toUnicode` and
      `uts46.toAscii` (each may throw, with a message), keccak-256 of the
      label's UTF-8 bytes as a hex string, and `BigNumber.from(hash).toString()`. */
  datatype Idna = Idna(
    toUnicode: string -> Result<string>,
    toAscii: string -> Result<string>,
    keccak: string -> string,
    decimal: string -> string)

  /** The record `getTokenInfo` returns. */
  datatype Token = Token(ascii: string, name: string, labelText: string, hash: string, id: string)

  /** The message of the TypeError thrown for a falsy name. It and the message
      below are written as concatenations of short literals so that
      `EmptyNameIsFatal` and `NotAStringIsFatal` can check, piece by piece,
      that the letter `I` does not occur in them; the verifier does not
      manage that on one long literal. */
  const EmptyNameMessage := "getToken: requires " + "non-empty `name` " + "string argument"

  /** The message Node gives when `replace` is called on a truthy value that is not a string. */
  const ReplaceNotAFunction := "name.replace " + "is not a function"

  const Eth := ".eth"

  /** `name.replace(/\.eth$/, '')`: one trailing `.eth` is removed. */
  function StripEth(name: string): (clear: string)
    ensures |clear| <= |name| && clear == name[..|clear|]
  {
    if EndsWith(name, Eth) then name[..|name| - |Eth|] else name
  }

  /** `getTokenInfo(name)` (`utils.js`:29-57). */
  function GetTokenInfo(name: JsValue, idna: Idna): (r: Result<Token>)
    ensures Falsy(name) ==> r == Err(EmptyNameMessage)
    ensures !Falsy(name) && !name.Str? ==> r == Err(ReplaceNotAFunction)
    ensures r.Ok? <==> (name.Str? && name.s != []
      && idna.toUnicode(StripEth(name.s)).Ok? && idna.toAscii(StripEth(name.s)).Ok?)
    ensures r.Ok? ==> EndsWith(r.value.name, Eth) && StripEth(r.value.name) == StripEth(name.s)
    ensures r.Ok? ==>
      (r.value.labelText == idna.toUnicode(StripEth(name.s)).value
       && r.value.ascii == idna.toAscii(StripEth(name.s)).value
       && r.value.hash == idna.keccak(r.value.labelText)
       && r.value.id == idna.decimal(r.value.hash))
    ensures (name.Str? && name.s != [] && idna.toUnicode(StripEth(name.s)).Err?) ==>
      r == Err(idna.toUnicode(StripEth(name.s)).message)
    ensures (name.Str? && name.s != [] && idna.toUnicode(StripEth(name.s)).Ok?
             && idna.toAscii(StripEth(name.s)).Err?) ==>
      r == Err(idna.toAscii(StripEth(name.s)).message)
  {
    if Falsy(name) then Err(EmptyNameMessage)
    else if !name.Str? then Err(ReplaceNotAFunction)
    else
      var clear := StripEth(name.s);
      match idna.toUnicode(clear)
      case Err(m) => Err(m)
      case Ok(labelText) =>
        match idna.toAscii(clear)
        case Err(m) => Err(m)
        case Ok(ascii) =>
          var hash := idna.keccak(labelText);
          EthRoundTrip(clear);
          Ok(Token(ascii, clear + Eth, labelText, hash, idna.decimal(hash)))
  }

  /** Appending `.eth` and stripping it again gives back the name. */
  lemma EthRoundTrip(n: string)
    ensures EndsWith(n + Eth, Eth) && StripEth(n + Eth) == n
  {
    assert (n + Eth)[|n + Eth| - |Eth|..] == Eth;
    assert (n + Eth)[..|n|] == n;
  }

  /** The token's `name` is the input with `.eth` appended unless it already ends with it. */
  lemma TokenName(n: string)
    ensures StripEth(n) + Eth == if EndsWith(n, Eth) then n else n + Eth
  {
    if EndsWith(n, Eth) {
      assert n == n[..|n| - |Eth|] + n[|n| - |Eth|..];
    }
  }

  /** Looking up `x` and `x.eth` is the same lookup. */
  lemma EthSuffixOptional(n: string, idna: Idna)
    requires n != [] && !EndsWith(n, Eth)
    ensures GetTokenInfo(Str(n + Eth), idna) == GetTokenInfo(Str(n), idna)
  {
    EthRoundTrip(n);
  }

  const IllegalChar := "Illegal char"

  /** The empty-name error of `getTokenInfo` is not an invalid-character error. */
  lemma EmptyNameIsFatal()
    ensures !Contains(EmptyNameMessage, IllegalChar)
  {
    assert IllegalChar[0] == 'I';
    assert 'I' !in "getToken: requires ";
    assert 'I' !in "non-empty `name` ";
    assert 'I' !in "string argument";
    FirstCharAbsent(EmptyNameMessage, IllegalChar);
  }

  /** Neither is the error of calling `replace` on a non-string. */
  lemma NotAStringIsFatal()
    ensures !Contains(ReplaceNotAFunction, IllegalChar)
  {
    assert IllegalChar[0] == 'I';
    assert 'I' !in "name.replace ";
    assert 'I' !in "is not a function";
    FirstCharAbsent(ReplaceNotAFunction, IllegalChar);
  }

  /** `.map((name) => getTokenInfo(name))`: the first name that throws ends it. */
  function TokensOf(names: seq<JsValue>, idna: Idna): (r: Result<seq<Token>>)
    ensures r.Ok? <==> forall i :: 0 <= i < |names| ==> GetTokenInfo(names[i], idna).Ok?
    ensures r.Ok? ==> (|r.value| == |names|
      && forall i :: 0 <= i < |names| ==> GetTokenInfo(names[i], idna) == Ok(r.value[i]))
    ensures r.Err? ==> exists i :: (0 <= i < |names| && GetTokenInfo(names[i], idna) == Err(r.message)
      && forall j :: 0 <= j < i ==> GetTokenInfo(names[j], idna).Ok?)
  {
    if names == [] then Ok([])
    else
      match GetTokenInfo(names[0], idna)
      case Err(m) => Err(m)
      case Ok(t) =>
        var rest := TokensOf(names[1..], idna);
        if rest.Err? then
          TokensOfErr(names, idna, rest.message);
          Err(rest.message)
        else
          Ok([t] + rest.value)
  }

  lemma TokensOfErr(names: seq<JsValue>, idna: Idna, m: string)
    requires names != [] && GetTokenInfo(names[0], idna).Ok?
    requires exists i :: (0 <= i < |names[1..]| && GetTokenInfo(names[1..][i], idna) == Err(m)
      && forall j :: 0 <= j < i ==> GetTokenInfo(names[1..][j], idna).Ok?)
    ensures exists i :: (0 <= i < |names| && GetTokenInfo(names[i], idna) == Err(m)
      && forall j :: 0 <= j < i ==> GetTokenInfo(names[j], idna).Ok?)
  {
    var i :| 0 <= i < |names[1..]| && GetTokenInfo(names[1..][i], idna) == Err(m)
      && forall j :: 0 <= j < i ==> GetTokenInfo(names[1..][j], idna).Ok?;
    assert GetTokenInfo(names[i + 1], idna) == Err(m);
    forall j | 0 <= j < i + 1
      ensures GetTokenInfo(names[j], idna).Ok?
    {
      if j > 0 {
        assert names[j] == names[1..][j - 1];
      }
    }
  }

  /** `getTokens(str)` (`utils.js`:10-12). */
  function GetTokens(val: JsValue, idna: Idna): (r: Result<seq<Token>>)
    ensures Falsy(val) ==> r == Ok([])
    ensures r.Ok? ==> NameLists.GetListOfNames(val).Ok? && |r.value| == |NameLists.GetListOfNames(val).value|
    ensures NameLists.GetListOfNames(val).Err? ==> r == Err(NameLists.GetListOfNames(val).message)
    ensures NameLists.GetListOfNames(val).Ok? ==> r == TokensOf(NameLists.GetListOfNames(val).value, idna)
  {
    match NameLists.GetListOfNames(val)
    case Err(m) => Err(m)
    case Ok(names) => TokensOf(names, idna)
  }

  /** Unlike `generateCollection`, `getTokens` does not drop falsy entries of
      an array: one of them makes it throw. */
  lemma GetTokensRejectsFalsy(items: seq<JsValue>, i: nat, idna: Idna)
    requires NoArrays(items) && i < |items| && Falsy(items[i])
    ensures GetTokens(Arr(items), idna).Err?
  {
    assert Flat(items) == items;
    assert !GetTokenInfo(items[i], idna).Ok?;
  }
}
