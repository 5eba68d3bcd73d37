/** The entities the table works on: a fetched comment, a post, and the row
    the table shows (a comment joined with its post's title). */
module Records {

  datatype Comment = Comment(id: int, postId: int, name: string, email: string, body: string)

  datatype Post = Post(id: int, title: string)

  /** A table row: every field of the comment plus the resolved `postTitle`. */
  datatype Record = Record(id: int, postId: int, name: string, email: string, body: string, postTitle: string)

  /** The two columns a user can edit in place. */
  datatype Field = Name | Body

  function Get(r: Record, f: Field): string {
    match f
    case Name => r.name
    case Body => r.body
  }

  /** The fields no edit may touch are equal in both rows. */
  predicate SameFixedFields(r: Record, r': Record) {
    r'.id == r.id && r'.postId == r.postId && r'.email == r.email && r'.postTitle == r.postTitle
  }

  /** `{ ...r, [f]: v }` for one of the two editable fields. */
  function Set(r: Record, f: Field, v: string): (r': Record)
    ensures Get(r', f) == v
    ensures forall g :: g != f ==> Get(r', g) == Get(r, g)
    ensures SameFixedFields(r, r')
  {
    match f
    case Name => r.(name := v)
    case Body => r.(body := v)
  }
}
