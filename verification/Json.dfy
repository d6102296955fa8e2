/** JSON values as the toolkit holds them: numbers by their printed token, objects as member lists. */
module Json {

  datatype Value =
    | Null
    | Bool(value: bool)
    | Number(token: string)
    | String(text: string)
    | Array(items: seq<Value>)
    | Object(members: seq<Member>)

  datatype Member = Member(key: string, value: Value)
}
