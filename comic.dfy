/** The comic record served by the remote archive and the small shared types. */
module Comics {

  /** Rust's `u32`: comic numbers and request indices. */
  type U32 = x: int | 0 <= x <= 0xFFFF_FFFF

  datatype Option<+T> = None | Some(value: T)

  /** One comic as the archive's JSON describes it; every field but `num` is free text. */
  datatype XkcdComic = XkcdComic(
    month: string,
    num: U32,
    link: string,
    year: string,
    news: string,
    safeTitle: string,
    transcript: string,
    alt: string,
    img: string,
    title: string,
    day: string)
}
