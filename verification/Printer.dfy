/** snd_config_save (conf.c:1625-1714, 3435-3444): the text of a tree. */
module Printer {
  import opened Numbers
  import opened Tree
  import opened TokenPrinter

  function Tabs(level: nat): (s: string)
    ensures forall i :: 0 <= i < |s| ==> s[i] == '\t'
  {
    if level == 0 then [] else ['\t'] + Tabs(level - 1)
  }

  /** The ids of the joined compounds around a node, each followed by a dot, and its own id. */
  function IdPrint(path: seq<string>, id: string): string {
    if path == [] then StringPrint(id, true)
    else StringPrint(path[0], true) + ['.'] + IdPrint(path[1..], id)
  }

  predicate Joined(v: Value) {
    v.Compound? && v.join
  }

  /** A Writer fixes the text of real numbers. */
  datatype Writer = Writer(formatReal: real -> string) {

    function SaveValue(v: Value, level: nat): string
      decreases v, 1
    {
      match v
      case Integer(i) => PrintInt(i)
      case Integer64(i) => PrintInt(i)
      case Real(r) => formatReal(r)
      case Str(s) => StringPrint(s, false)
      case Compound(kids, _) =>
        if IsArray(kids) then "[\n" + SaveChildren(kids, level + 1, [], true) + Tabs(level) + "]"
        else "{\n" + SaveChildren(kids, level + 1, [], false) + Tabs(level) + "}"
    }

    /** One line per child; a joined compound has no line of its own and passes its id on to its children. */
    function SaveChildren(kids: seq<Node>, level: nat, path: seq<string>, inArray: bool): string
      decreases kids, 0
    {
      if kids == [] then []
      else SaveChild(kids[0], level, path, inArray) + SaveChildren(kids[1..], level, path, inArray)
    }

    function SaveChild(k: Node, level: nat, path: seq<string>, inArray: bool): string
      decreases k, 0
    {
      if Joined(k.value) then SaveChildren(k.value.kids, level, path + [k.id], false)
      else
        Tabs(level) + (if inArray then [] else IdPrint(path, k.id) + [' ']) + SaveValue(k.value, level) + ['\n']
    }

    /** The text of a top node with the given children. */
    function Save(kids: seq<Node>): string {
      SaveChildren(kids, 0, [], IsArray(kids))
    }
  }
}
