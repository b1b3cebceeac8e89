/** The data-transfer objects of the HTTP boundary. */
module Dtos {
  import opened Users

  /** `UserRegistrationDto`, after Bean Validation has accepted it. */
  datatype RegistrationRequest = RegistrationRequest(username: string, password: string, email: string)

  /** `UserLoginDto`, after Bean Validation has accepted it. */
  datatype LoginRequest = LoginRequest(username: string, password: string)

  /** `UserInfoDto`: the public view of a user. It has no password field. */
  datatype UserInfo = UserInfo(
    id: int,
    username: string,
    email: string,
    createdAt: Timestamp,
    isActive: bool)

  /** The projection `listUsers` applies to each stored user. */
  function ToUserInfo(u: User): (info: UserInfo)
    ensures info.id == u.id && info.username == u.username && info.email == u.email
    ensures info.createdAt == u.createdAt && info.isActive == u.isActive
  {
    UserInfo(u.id, u.username, u.email, u.createdAt, u.isActive)
  }

  /** The `data` field of `ApiResponseDto` (an `Object`, `null` when absent). */
  datatype ResponseData = NoData | Text(text: string) | UserList(list: seq<UserInfo>)

  /** `ApiResponseDto`. */
  datatype ApiResponse = ApiResponse(success: bool, message: string, data: ResponseData)

  function Success(message: string): (r: ApiResponse)
    ensures r.success && r.message == message && r.data == NoData
  {
    ApiResponse(true, message, NoData)
  }

  function SuccessWith(message: string, data: ResponseData): (r: ApiResponse)
    ensures r.success && r.message == message && r.data == data
  {
    ApiResponse(true, message, data)
  }

  function Error(message: string): (r: ApiResponse)
    ensures !r.success && r.message == message && r.data == NoData
  {
    ApiResponse(false, message, NoData)
  }
}
