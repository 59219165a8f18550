/** Optional values. */
module Options {
  datatype Option<T> = None | Some(value: T)
}

/** ASCII letters. */
module Ascii {
  function LowerChar(c: char): char {
    if 'A' <= c <= 'Z' then c - 'A' + 'a' else c
  }

  /** The lower case of ASCII letters; other characters stay. */
  function Lower(s: string): string {
    seq(|s|, i requires 0 <= i < |s| => LowerChar(s[i]))
  }
}

/** Values as JSON has them. */
module JsonValues {
  datatype Prop = Prop(key: string, value: Json)

  /** `Scalar` is everything that is neither text, array nor plain object: null, numbers, booleans, dates. */
  datatype Json = Scalar(text: string) | Str(s: string) | Arr(items: seq<Json>) | Obj(props: seq<Prop>)
}
