/** The chat messages the group chat records, seen as the Python dictionaries
    the application reads them as: a `name` key and a `content` key, either of
    which may be missing, and a content value that is not always a string. */
module Messages {

  datatype Option<+T> = None | Some(value: T) {
    /** `dict.get(key, default)`: the value when the key is present. */
    function GetOr(default: T): T {
      match this
      case Some(v) => v
      case None => default
    }
  }

  /** The Python exceptions the modelled code can raise. */
  datatype PyError =
    | KeyError(key: string)            // `d[key]` on a dictionary without that key
    | AttributeError(attribute: string) // a method call on a value that lacks it

  datatype Result<+T> = Ok(value: T) | Err(error: PyError)

  type byte = b: int | 0 <= b < 256

  /** The value stored under a message's `content` key. */
  datatype Value =
    | Str(s: string)      // a `str`
    | Bytes(b: seq<byte>) // a `bytes` value: it has `.upper()` but is not a `str`
    | PyNone              // `None`, as for tool and function-call messages
    | Structured          // a list or dict (multimodal content): no `.upper()`

  /** One entry of `GroupChat.messages`; `None` stands for a missing key. */
  datatype Message = Message(name: Option<string>, content: Option<Value>)

  /** `isinstance(msg.get("content"), str)`. */
  predicate HasText(m: Message) {
    m.content.Some? && m.content.value.Str?
  }
}
