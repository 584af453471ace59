/** Business constants of the service (api/config.py, api/predictor.py). */
module Config {

  /** Decision threshold used when no threshold descriptor supplies one. */
  const DefaultThreshold: real := 0.5

  /** Number of top attributions of each sign reported when the caller gives none. */
  const DefaultTopN: int := 10
}
