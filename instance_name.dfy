/**
  The label each running copy of the program gives its window
  (`get_instance_name`, Projeto_Ping.py lines 20-33): the stored counter
  plus one, turned into "Grupo " followed by the character with code
  64 + count. Reading and writing the counter file is not modelled; the
  stored value is a parameter (absent when the file does not exist yet).
 */
module InstanceName {
  import opened Wrappers

  const Prefix: string := "Grupo "

  /** Python's `chr` fails (`ValueError`, or `OverflowError` for a huge
      argument) outside 0..0x10FFFF; a surrogate code point cannot be held
      by a Dafny `char`. */
  datatype LabelError = CodePointOutOfRange | SurrogateCodePoint

  /** The new counter value: the stored one plus one, with a missing file
      first written as "0". It is also the value written back. */
  function NextCount(stored: Option<int>): (count: int)
    ensures stored.None? ==> count == 1
    ensures stored.Some? ==> count == stored.value + 1
  {
    match stored
    case None => 1
    case Some(n) => n + 1
  }

  predicate IsScalarValue(code: int) {
    0 <= code < 0xD800 || 0xE000 <= code < 0x11_0000
  }

  /** `f"Grupo {chr(64 + count)}"`: the prefix followed by exactly one
      character, whose code is 64 + count, whenever that code is a
      character at all. */
  function InstanceLabel(count: int): (r: Result<string, LabelError>)
    ensures r.Ok? <==> IsScalarValue(64 + count)
    ensures r.Ok? ==> |r.value| == |Prefix| + 1 && r.value[..|Prefix|] == Prefix
                      && r.value[|Prefix|] as int == 64 + count
  {
    var code := 64 + count;
    if code < 0 || code >= 0x11_0000 then Err(CodePointOutOfRange)
    else if 0xD800 <= code < 0xE000 then Err(SurrogateCodePoint)
    else Ok(Prefix + [code as char])
  }

  /** The first copy, started with no counter file or a stored 0, is "Grupo A". */
  lemma FirstInstanceIsA()
    ensures InstanceLabel(NextCount(None)) == Ok("Grupo A")
    ensures InstanceLabel(NextCount(Some(0))) == Ok("Grupo A")
  {
    assert Prefix + ['A'] == "Grupo A";
  }

  /** Counts 1 to 26 give the letters A to Z, in order. */
  lemma LettersForFirst26(count: int)
    requires 1 <= count <= 26
    ensures InstanceLabel(count) == Ok(Prefix + ["ABCDEFGHIJKLMNOPQRSTUVWXYZ"[count - 1]])
  {
    var letters := "ABCDEFGHIJKLMNOPQRSTUVWXYZ";
    assert forall k :: 0 <= k < 26 ==> letters[k] as int == 65 + k;
  }

  /** Different counts give different labels, so no two copies started
      one after another share a label. */
  lemma LabelsDistinct(count1: int, count2: int)
    requires count1 != count2
    requires InstanceLabel(count1).Ok? && InstanceLabel(count2).Ok?
    ensures InstanceLabel(count1).value != InstanceLabel(count2).value
  {
    var a, b := InstanceLabel(count1).value, InstanceLabel(count2).value;
    assert a[|Prefix|] != b[|Prefix|];
  }

  /** After the 26th copy the label is no longer a letter: the 27th is "Grupo [". */
  lemma TwentySeventhInstance()
    ensures InstanceLabel(27) == Ok("Grupo [")
  {
    assert Prefix + ['['] == "Grupo [";
  }
}
