/** `AuthService.login`: login by email alone. */
module Auth {
  import opened Wrappers
  import opened Errors
  import opened Users

  const EmailMissing := "userEmail is required"
  const UserNotFound := "User not found"

  class AuthService {
    /** The user repository, consulted directly rather than through `UserService`. */
    const userRepository: UserRepository
    /** `generateToken`: signs a token whose only claim is the email (left uninterpreted). */
    const generateToken: string -> string

    constructor (userRepository: UserRepository, generateToken: string -> string)
      ensures this.userRepository == userRepository && this.generateToken == generateToken
    {
      this.userRepository := userRepository;
      this.generateToken := generateToken;
    }

    /** `login(userEmail)`: 400 for an empty email before any lookup, 404 for an
        unknown one, otherwise the token issued for exactly that email. The user
        store is never changed. */
    method Login(userEmail: string) returns (r: Result<string, Error>)
      requires userRepository.Valid()
      modifies userRepository`calls
      ensures r.Success? <==> userEmail != "" && userEmail in userRepository.users
      ensures userEmail == "" ==>
        r == Failure(NewAppError(EmailMissing, Some(400))) && userRepository.calls == old(userRepository.calls)
      ensures userEmail != "" ==>
        userRepository.calls == old(userRepository.calls) + [UserCall.FindByEmail(userEmail)]
      ensures userEmail != "" && userEmail !in userRepository.users ==>
        r == Failure(NewAppError(UserNotFound, Some(404)))
      ensures r.Success? ==> r.value == generateToken(userEmail)
    {
      if userEmail == "" {
        return Failure(NewAppError(EmailMissing, Some(400)));
      }
      var user := userRepository.FindByEmail(userEmail);
      if user.None? {
        return Failure(NewAppError(UserNotFound, Some(404)));
      }
      var token := generateToken(userEmail);
      r := Success(token);
    }
  }
}
