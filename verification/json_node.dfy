/**
 * The shape of a document node as the core observes it. Only the node's kind
 * (textual, array, null, ...) and, for text and arrays, its contents matter to
 * the operations modelled here; the elements of an array are kept as plain
 * values of an abstract type `V`, which is how the array expressions read them
 * after re-parsing the node.
 */
module JsonNode {

  datatype Node<V> =
    | Text(text: string)
    | Number(number: int)
    | Boolean(truth: bool)
    | Null
    | Missing
    | Array(elements: seq<V>)
    | Object(fields: map<string, V>)
  {
    /** Jackson's `isTextual()`. */
    predicate IsTextual() { Text? }

    /** Jackson's `isArray()`. */
    predicate IsArray() { Array? }
  }
}
