/** Record shapes shared by the store and the protocol handlers (src/types/auth.ts). */
module Types {
  import Bcrypt

  datatype Option<+T> = None | Some(value: T)

  type UserId = string
  type ProfileId = string
  type Token = string

  /** A JavaScript Date, as milliseconds since the epoch. */
  type Millis = int

  /** JavaScript truthiness of an optional string field of a request: present and not empty. */
  predicate Truthy(field: Option<string>) {
    field.Some? && field.value != ""
  }

  /** An account. `tokenSesion` of the source record is never written and is left out. */
  datatype User = User(
    id: UserId,
    username: string,
    email: string,
    passwordHash: Bcrypt.Hash,
    skinUrl: Option<string>,
    capeUrl: Option<string>,
    createdAt: Millis,
    lastLogin: Option<Millis>)

  /** A bearer-token session; `username` is a snapshot of the owner's name. */
  datatype Session = Session(
    accessToken: Token,
    clientToken: Token,
    userId: UserId,
    username: string,
    expiresAt: Millis,
    createdAt: Millis)

  /** A player identity owned by one user. */
  datatype Profile = Profile(
    id: ProfileId,
    userId: UserId,
    name: string,
    skinUrl: Option<string>,
    capeUrl: Option<string>,
    createdAt: Millis)

  /** Skins and capes have the same shape; the store keeps them in separate tables. */
  datatype Texture = Texture(
    id: string,
    userId: UserId,
    name: string,
    url: string,
    uploadedAt: Millis)

  type Skin = Texture
  type Cape = Texture
}
