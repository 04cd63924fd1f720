/** The two record types shared by the pipeline's stages. */
module Models {

  /** One changed file of a `git diff`: the path it is known by and the
      unified-diff text for that file alone, starting with its
      `diff --git a/` header line. */
  datatype DiffInfo = DiffInfo(file_path: string, diff_content: string)

  /** Which model endpoint to call; building one performs no I/O. */
  datatype AIConfig = AIConfig(project_id: string, region: string, model_name: string := DefaultModelName)

  const DefaultModelName: string := "gemini-2.0-flash"
}
